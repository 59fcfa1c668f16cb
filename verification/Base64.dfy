/** Base64 encoding and decoding streams (Foundation/src/Base64Encoder.cpp, Base64Decoder.cpp). Shifts and masks are divisions and
    remainders; or-ing bits that do not overlap is a sum. */
module Base64 {
  import opened Wrappers
  import opened BaseCoding

  const UPPER: Text := "ABCDEFGHIJKLMNOPQRSTUVWXYZ"

  const LOWER: Text := "abcdefghijklmnopqrstuvwxyz"

  const OTHER: Text := "0123456789+/"

  const OUT_ENCODING: Text := UPPER + LOWER + OTHER

  /** Table 1 of RFC 4648. */
  lemma AlphabetIs(i: nat)
    requires i < 64
    ensures |OUT_ENCODING| == 64
    ensures OUT_ENCODING[i] as int ==
            if i < 26 then 'A' as int + i else if i < 52 then 'a' as int + (i - 26) else if i < 62 then '0' as int + (i - 52)
            else if i == 62 then '+' as int else '/' as int
  {
  }

  /** The four indices of a group of three bytes. */
  function Indices(g: Bytes): (r: seq<int>)
    requires |g| == 3
    ensures |r| == 4 && forall k :: 0 <= k < 4 ==> 0 <= r[k] < 64
  {
    [g[0] / 4, g[0] % 4 * 16 + g[1] / 16, g[1] % 16 * 4 + g[2] / 64, g[2] % 64]
  }

  /** The indices are the base 64 digits of the group read as a base 256 number: section 4 of RFC 4648. */
  lemma IndicesAreDigits(g: Bytes)
    requires |g| == 3
    ensures Number(64, Indices(g)) == Number(256, g)
  {
    var r := Indices(g);
    assert g == [g[0], g[1], g[2]];
    assert r == [r[0], r[1], r[2]] + [r[3]];
    Number3(256, g[0], g[1], g[2]);
    Number3(64, r[0], r[1], r[2]);
    NumberStep(64, [r[0], r[1], r[2]], r[3]);
    hide Number;
    Digits(g[0], g[1], g[2]);
  }

  lemma Digits(a: int, b: int, c: int)
    ensures ((a / 4 * 64 + (a % 4 * 16 + b / 16)) * 64 + (b % 16 * 4 + c / 64)) * 64 + c % 64 == (a * 256 + b) * 256 + c
  {
    assert a == a / 4 * 4 + a % 4 && b == b / 16 * 16 + b % 16 && c == c / 64 * 64 + c % 64;
  }

  /** The characters of a group filled up to three bytes. */
  function Symbols(g: Bytes): (s: Text)
    requires |g| == 3
    ensures |s| == 4
  {
    var r := Indices(g);
    [OUT_ENCODING[r[0]], OUT_ENCODING[r[1]], OUT_ENCODING[r[2]], OUT_ENCODING[r[3]]]
  }

  /** A group of one to three bytes: a character more than bytes, then padding. */
  function Group(g: Bytes): (t: Text)
    requires 1 <= |g| <= 3
    ensures |t| == 4
  {
    Symbols(g + Zeros(3 - |g|))[..|g| + 1] + (if |g| == 1 then "==" else if |g| == 2 then "=" else [])
  }

  function LastGroup(g: Bytes): Text
    requires |g| <= 3
  {
    if g == [] then [] else Group(g)
  }

  function FullGroup(g: Bytes): Text {
    if |g| == 3 then Group(g) else []
  }

  /** The encoding of a byte sequence, without line breaks. */
  function Encoded(s: Bytes): Text {
    WholeGroups(s, 3, FullGroup) + LastGroup(Remainder(s, 3))
  }

  /** Whole groups in front are encoded on their own, in their order. */
  lemma {:induction false} EncodedConcat(a: Bytes, b: Bytes)
    requires |a| % 3 == 0
    ensures Encoded(a + b) == Encoded(a) + Encoded(b)
    decreases |a|
  {
    hide *;
    if a == [] {
      NothingEncoded();
      assert a + b == b;
      assert [] + Encoded(b) == Encoded(b);
    } else {
      assert (a + b)[..3] == a[..3] && (a + b)[3..] == a[3..] + b;
      EncodedConcat(a[3..], b);
      FirstGroup(a);
      FirstGroup(a + b);
      Grouped(FullGroup(a[..3]), Encoded(a[3..]), Encoded(b));
    }
  }

  lemma NothingEncoded()
    ensures Encoded([]) == []
  {
    NothingWritten();
  }

  lemma FirstGroup(s: Bytes)
    requires |s| >= 3
    ensures Encoded(s) == FullGroup(s[..3]) + Encoded(s[3..])
  {
    hide FullGroup, LastGroup;
    Grouped(FullGroup(s[..3]), WholeGroups(s[3..], 3, FullGroup), LastGroup(Remainder(s[3..], 3)));
  }

  /** One group: the digits of its bytes with zeros behind them, one digit more than bytes, then padding up to four characters. */
  lemma EncodedGroup(g: Bytes)
    requires 1 <= |g| <= 3
    ensures |Encoded(g)| == 4
    ensures forall j :: 0 <= j < 4 ==>
              Encoded(g)[j] == if j <= |g| then OUT_ENCODING[Indices(g + Zeros(3 - |g|))[j]] else '='
  {
    NothingWritten();
    if |g| == 3 {
      FullGroupIs(g);
      assert g + Zeros(0) == g && g[..3] == g && g[3..] == [];
    }
    hide Indices;
  }

  // ----- line breaks -----

  predicate IsBreak(c: Octet) { c == ' ' || c == '\r' || c == '\t' || c == '\n' }

  /** The characters the decoder looks at. */
  function Unbroken(t: Text): Text {
    if t == [] then [] else (if IsBreak(t[0]) then [] else [t[0]]) + Unbroken(t[1..])
  }

  lemma {:induction false} UnbrokenConcat(a: Text, b: Text)
    ensures Unbroken(a + b) == Unbroken(a) + Unbroken(b)
  {
    if a == [] {
      assert a + b == b;
    } else {
      assert (a + b)[1..] == a[1..] + b;
      UnbrokenConcat(a[1..], b);
    }
  }

  predicate NoBreaks(t: Text) { forall i :: 0 <= i < |t| ==> !IsBreak(t[i]) }

  lemma {:induction false} UnbrokenKeeps(t: Text)
    requires NoBreaks(t)
    ensures Unbroken(t) == t
  {
    if t != [] { UnbrokenKeeps(t[1..]); }
  }

  const CRLF: Text := "\r\n"

  /** A text in lines of the given width; the first has some room left. */
  function Lines(t: Text, room: nat, width: nat): Text
    requires room > 0 && width > 0
    decreases |t|
  {
    if |t| < room then t else t[..room] + CRLF + Lines(t[room..], width, width)
  }

  /** Lines hold whole groups: the line length rounded up. */
  function Width(lineLength: int): nat
    requires lineLength > 0
  {
    (lineLength + 3) / 4 * 4
  }

  /** Lines of the width end with CR and LF, what is left over does not; the width is the length rounded up to whole groups. */
  lemma LinesAre(line: Text, t: Text, lineLength: int)
    requires lineLength > 0
    ensures var w := Width(lineLength);
            w % 4 == 0 && lineLength <= w < lineLength + 4 &&
            (|line| == w ==> Lines(line + t, w, w) == line + ['\r', '\n'] + Lines(t, w, w)) &&
            (|t| < w ==> Lines(t, w, w) == t)
  {
    var w := Width(lineLength);
    if |line| == w { assert (line + t)[..w] == line && (line + t)[w..] == t; }
  }

  /** How much room is left on the last line. */
  function RoomLeft(n: nat, room: nat, width: nat): (r: nat)
    requires room > 0 && width > 0
    ensures r > 0
    decreases n
  {
    if n < room then room - n else RoomLeft(n - room, width, width)
  }

  /** Four more characters complete the last line or not. */
  lemma {:induction false} LinesGrow(t: Text, g: Text, room: nat, width: nat)
    requires |g| == 4 && room > 0 && width > 0 && room % 4 == 0 && width % 4 == 0 && |t| % 4 == 0
    ensures var left := RoomLeft(|t|, room, width);
            left % 4 == 0 &&
            Lines(t + g, room, width) == Lines(t, room, width) + g + (if left == 4 then CRLF else []) &&
            RoomLeft(|t| + 4, room, width) == if left == 4 then width else left - 4
    decreases |t|
  {
    var u := t + g;
    if |t| < room {
      assert (room - |t|) % 4 == 0;
      if |u| == room { assert u[..room] == u && u[room..] == []; }
    } else {
      assert u[..room] == t[..room] && u[room..] == t[room..] + g;
      LinesGrow(t[room..], g, width, width);
      var rest, add := Lines(t[room..], width, width), if RoomLeft(|t|, room, width) == 4 then CRLF else [];
      assert t[..room] + CRLF + (rest + g + add) == t[..room] + CRLF + rest + g + add;
    }
  }

  // ----- encoding -----

  lemma SymbolsHaveNoBreaks(g: Bytes)
    requires |g| == 3
    ensures NoBreaks(Symbols(g)) && '=' !in Symbols(g)
  {
    AlphabetIsFine();
    hide Indices;
  }

  lemma PartsAreFine()
    ensures NoBreaks(UPPER) && NoBreaks(LOWER) && NoBreaks(OTHER)
    ensures '=' !in UPPER && '=' !in LOWER && '=' !in OTHER
  {
  }

  lemma AlphabetIsFine()
    ensures NoBreaks(OUT_ENCODING) && '=' !in OUT_ENCODING && |OUT_ENCODING| == 64
  {
    PartsAreFine();
  }

  lemma GroupHasNoBreaks(g: Bytes)
    requires 1 <= |g| <= 3
    ensures NoBreaks(Group(g)) && Unbroken(Group(g)) == Group(g)
  {
    SymbolsHaveNoBreaks(g + Zeros(3 - |g|));
    hide Symbols, Zeros;
    UnbrokenKeeps(Group(g));
  }

  lemma UnbrokenCrlf()
    ensures Unbroken(CRLF) == []
  {
    assert CRLF[1..] == "\n" && "\n"[1..] == [];
  }

  lemma FullGroupIs(g: Bytes)
    requires |g| == 3
    ensures FullGroup(g) == Group(g) == Symbols(g)
  {
    hide Symbols;
    assert g + Zeros(0) == g;
    assert Symbols(g)[..4] == Symbols(g);
  }

  lemma NothingWritten()
    ensures WholeGroups([], 3, FullGroup) == [] && Remainder([], 3) == []
  {
  }

  class Encoder {
    var group: array<Byte>
    var groupLength: nat
    var pos: int
    var lineLength: int
    var out: Text

    /** The bytes written since the last close, and what the stream held before them. */
    ghost var written: Bytes
    ghost var sent: Text

    /** But for line breaks, the stream holds the encoding of the whole groups. */
    ghost predicate Valid()
      reads this, group
    {
      group.Length == 3 && groupLength < 3 && group[..groupLength] == Remainder(written, 3) &&
      Unbroken(out) == Unbroken(sent) + WholeGroups(written, 3, FullGroup)
    }

    constructor ()
      ensures Valid() && fresh(group) && written == [] && sent == [] && out == [] && pos == 0 && lineLength == 72
    {
      group, groupLength, pos, lineLength, out := new Byte[3](_ => 0), 0, 0, 72, [];
      written, sent := [], [];
    }

    method SetLineLength(n: int)
      requires Valid()
      modifies `lineLength
      ensures Valid() && lineLength == n
    {
      lineLength := n;
    }

    method WriteToDevice(c: Byte)
      requires Valid()
      modifies this, group
      ensures Valid() && written == old(written) + [c] && sent == old(sent) && group == old(group) && lineLength == old(lineLength)
      ensures var g := Remainder(old(written), 3) + [c];
              if |g| < 3 then out == old(out) && pos == old(pos)
              else
                var wraps := lineLength > 0 && old(pos) + 4 >= lineLength;
                out == old(out) + FullGroup(g) + (if wraps then CRLF else []) && pos == if wraps then 0 else old(pos) + 4
    {
      hide WholeGroups, Remainder, Group, Unbroken;
      OneMoreByte(written, c, 3, FullGroup);
      group[groupLength] := c;
      groupLength := groupLength + 1;
      assert group[..groupLength] == Remainder(written, 3) + [c];
      if groupLength == 3 {
        ghost var whole, g := WholeGroups(written, 3, FullGroup), group[..];
        assert g == group[..3];
        FullGroupIs(g);
        GroupHasNoBreaks(g);
        WriteGroup();
        Grouped(Unbroken(sent), whole, FullGroup(g));
        groupLength := 0;
      }
      written := written + [c];
    }

    /** The characters of a whole group and perhaps a line break. */
    method WriteGroup()
      requires group.Length == 3
      modifies `out, `pos
      ensures var wraps := lineLength > 0 && old(pos) + 4 >= lineLength;
              out == old(out) + Symbols(group[..]) + (if wraps then CRLF else []) && pos == if wraps then 0 else old(pos) + 4
      ensures Unbroken(out) == Unbroken(old(out)) + Unbroken(Symbols(group[..]))
    {
      hide Indices, Unbroken;
      var r := Indices(group[..]);
      var s := [OUT_ENCODING[r[0]], OUT_ENCODING[r[1]], OUT_ENCODING[r[2]], OUT_ENCODING[r[3]]];
      UnbrokenConcat(out, s);
      out := out + s;
      pos := pos + 4;
      if lineLength > 0 && pos >= lineLength {
        UnbrokenConcat(out, CRLF);
        UnbrokenCrlf();
        out := out + CRLF;
        pos := 0;
      } else {
        Grouped(out, [], []);
      }
    }

    /** close: the last group, padded. The position on the line stays. */
    method Close()
      requires Valid()
      modifies this, group
      ensures Valid() && written == [] && sent == out && group == old(group) && pos == old(pos) && lineLength == old(lineLength)
      ensures out == old(out) + LastGroup(Remainder(old(written), 3))
      ensures Unbroken(out) == Unbroken(old(sent)) + Encoded(old(written))
    {
      ghost var rest, whole := Remainder(written, 3), WholeGroups(written, 3, FullGroup);
      NothingWritten();
      assert Encoded(written) == whole + LastGroup(rest);
      hide WholeGroups, Remainder, LastGroup, Encoded, Unbroken;
      WriteRest(rest);
      Grouped(Unbroken(sent), whole, LastGroup(rest));
      groupLength, written, sent := 0, [], out;
      Grouped(Unbroken(out), [], []);
    }

    method WriteRest(ghost rest: Bytes)
      requires group.Length == 3 && groupLength < 3 && rest == group[..groupLength]
      modifies `out, group
      ensures out == old(out) + LastGroup(rest) && Unbroken(out) == Unbroken(old(out)) + LastGroup(rest)
    {
      hide Group, Unbroken;
      if groupLength > 0 {
        GroupHasNoBreaks(rest);
        UnbrokenConcat(out, Group(rest));
        WriteTail(groupLength, rest);
      } else {
        Grouped(out, [], []);
        Grouped(Unbroken(out), [], []);
      }
    }

    /** The branches of close. */
    method WriteTail(k: nat, ghost rest: Bytes)
      requires group.Length == 3 && 1 <= k <= 2 && rest == group[..k]
      modifies `out, group
      ensures out == old(out) + Group(rest)
    {
      hide Indices;
      ghost var z := rest + Zeros(3 - k);
      if k == 1 {
        group[1] := 0;
        assert [group[0], group[1], 0] == z;
        var r := Indices([group[0], group[1], 0]);
        assert Group(rest) == [OUT_ENCODING[r[0]], OUT_ENCODING[r[1]]] + "==";
        out := out + [OUT_ENCODING[r[0]], OUT_ENCODING[r[1]]] + "==";
      } else {
        group[2] := 0;
        assert group[..] == z;
        var r := Indices(group[..]);
        assert Group(rest) == [OUT_ENCODING[r[0]], OUT_ENCODING[r[1]], OUT_ENCODING[r[2]]] + "=";
        out := out + [OUT_ENCODING[r[0]], OUT_ENCODING[r[1]], OUT_ENCODING[r[2]]] + "=";
      }
    }
  }

  lemma InAlphabet(i: nat)
    requires i < 64
    ensures |OUT_ENCODING| == 64
    ensures OUT_ENCODING[i] == if i < 26 then 'A' + i as char else if i < 52 then 'a' + (i - 26) as char
                               else if i < 62 then '0' + (i - 52) as char else if i == 62 then '+' else '/'
  {
    if i < 26 { assert UPPER[i] == 'A' + i as char; }
    else if i < 52 { assert LOWER[i - 26] == 'a' + (i - 26) as char; }
    else { assert i < 62 ==> OTHER[i - 52] == '0' + (i - 52) as char; }
  }

  lemma AlphabetIsAlphabet()
    ensures IsAlphabet(OUT_ENCODING)
  {
    AlphabetIsFine();
    forall i, j | 0 <= i < j < |OUT_ENCODING| ensures OUT_ENCODING[i] != OUT_ENCODING[j] {
      InAlphabet(i);
      InAlphabet(j);
    }
    forall i | 0 <= i < |OUT_ENCODING| ensures OUT_ENCODING[i] != '=' { assert OUT_ENCODING[i] in OUT_ENCODING; }
  }

  // ----- decoding -----

  datatype Block = End | Malformed | Decoded(bytes: Bytes, rest: Text)

  function Value(c: Octet): (v: int)
    ensures v == INVALID || 0 <= v < 64
  {
    AlphabetIsFine();
    ValueOf(OUT_ENCODING, c)
  }

  predicate AllKnown(t: Text) {
    forall i :: 0 <= i < |t| ==> Value(t[i]) != INVALID
  }

  /** Four characters of the alphabet or padding. */
  function NextBlock(t: Text): Block {
    if t == [] then End
    else if |t| < 4 || !AllKnown(t[..4]) then Malformed
    else Decoded(BytesOf(t[..4]), t[4..])
  }

  function GroupLength(b: Text): (n: nat)
    requires |b| == 4
    ensures 1 <= n <= 3
  {
    if b[2] == '=' then 1 else if b[3] == '=' then 2 else 3
  }

  function Ungrouped(v: seq<int>): (g: Bytes)
    requires |v| == 4 && forall i :: 0 <= i < 4 ==> 0 <= v[i] < 64
    ensures |g| == 3
  {
    [v[0] * 4 + v[1] / 16, v[1] % 16 * 16 + v[2] / 4, v[2] * 64 % 256 + v[3]]
  }

  function BytesOf(b: Text): (r: Bytes)
    requires |b| == 4 && AllKnown(b)
    ensures 1 <= |r| <= 3
  {
    Ungrouped([Value(b[0]), Value(b[1]), Value(b[2]), Value(b[3])])[..GroupLength(b)]
  }

  /** Everything a text without breaks decodes to; None where the decoder throws. */
  function Decode(t: Text): Option<Bytes>
    decreases |t|
  {
    match NextBlock(t)
    case End => Some([])
    case Malformed => None
    case Decoded(bytes, rest) => (match Decode(rest) case None => None case Some(more) => Some(bytes + more))
  }

  predicate Permitted(t: Text) {
    forall i :: 0 <= i < |t| ==> t[i] == '=' || t[i] in OUT_ENCODING
  }

  lemma PermittedParts(a: Text, b: Text)
    ensures Permitted(a + b) <==> Permitted(a) && Permitted(b)
  {
    hide OUT_ENCODING;
    if Permitted(a + b) {
      assert forall i :: 0 <= i < |a| ==> a[i] == (a + b)[i];
      assert forall i :: 0 <= i < |b| ==> b[i] == (a + b)[|a| + i];
    }
  }

  /** Any text is accepted if and only if it has whole blocks and no character but those of the alphabet and equals signs. */
  lemma {:induction false} AcceptedExactly(t: Text)
    ensures Decode(t).Some? <==> |t| % 4 == 0 && Permitted(t)
    decreases |t|
  {
    hide *;
    if t == [] {
      NothingDecoded();
    } else {
      DecodeStep(t);
      if |t| >= 4 {
        var first, rest := t[..4], t[4..];
        assert t == first + rest && |t| == 4 + |rest|;
        AcceptedExactly(rest);
        AllKnownExactly(first);
        PermittedParts(first, rest);
      }
    }
  }

  lemma NothingDecoded()
    ensures Decode([]).Some? && Permitted([])
  {
  }

  lemma DecodeStep(t: Text)
    ensures |t| >= 4 ==> (Decode(t).Some? <==> AllKnown(t[..4]) && Decode(t[4..]).Some?)
    ensures 0 < |t| < 4 ==> Decode(t) == None
  {
    hide AllKnown, BytesOf;
  }

  lemma AllKnownExactly(t: Text)
    ensures AllKnown(t) <==> Permitted(t)
  {
    AlphabetIsFine();
    hide OUT_ENCODING, ValueOf;
    forall i | 0 <= i < |t| ensures Value(t[i]) != INVALID <==> t[i] == '=' || t[i] in OUT_ENCODING {
      KnownIsWritten(OUT_ENCODING, t[i]);
    }
  }

  /** What is decoded are the values of a block, an equals sign being a zero, as the base 256 digits of the same number. */
  lemma UngroupedIsNumber(v: seq<int>)
    requires |v| == 4 && forall i :: 0 <= i < 4 ==> 0 <= v[i] < 64
    ensures Number(256, Ungrouped(v)) == Number(64, v)
  {
    var g := Ungrouped(v);
    assert g == [g[0], g[1], g[2]] && v == [v[0], v[1], v[2]] + [v[3]];
    SplitDigits(v[1], v[2]);
    hide Number;
    Number3(256, g[0], g[1], g[2]);
    Number3(64, v[0], v[1], v[2]);
    NumberStep(64, [v[0], v[1], v[2]], v[3]);
  }

  lemma SplitDigits(a: int, b: int)
    requires 0 <= b < 64
    ensures a == a / 16 * 16 + a % 16 && b * 64 == b / 4 * 256 + b * 64 % 256
  {
  }

  lemma SymbolBack(g: Bytes, k: nat)
    requires |g| == 3 && k < 4
    ensures Value(Symbols(g)[k]) == Indices(g)[k] && Symbols(g)[k] != '='
  {
    var i := Indices(g)[k];
    assert Symbols(g)[k] == OUT_ENCODING[i];
    hide Symbols, Indices;
    AlphabetIsAlphabet();
    AlphabetIsFine();
    ValueOfWritten(OUT_ENCODING, i);
  }

  lemma UngroupedIndices(g: Bytes)
    requires |g| == 3
    ensures Ungrouped(Indices(g)) == g
  {
    var v := Indices(g);
    Pair(g[0], 4); Pair(g[1], 16); Pair(g[2], 64);
    assert Ungrouped(v)[0] == g[0];
    assert Ungrouped(v)[1] == g[1];
    assert Ungrouped(v)[2] == g[2];
  }

  lemma Pair(b: int, n: int)
    requires 0 <= b && (n == 4 || n == 16 || n == 64)
    ensures b == b / n * n + b % n
  {
  }

  lemma ZeroTail(z: Bytes, n: nat, k: nat)
    requires |z| == 3 && 1 <= n <= 3 && n < k < 4 && forall i :: n <= i < 3 ==> z[i] == 0
    ensures Indices(z)[k] == 0
  {
    assert n <= 2 ==> z[2] == 0;
    assert n <= 1 ==> z[1] == 0;
  }

  lemma PaddingIsZero()
    ensures Value('=') == 0
  {
  }

  lemma GroupSymbol(g: Bytes, k: nat)
    requires 1 <= |g| <= 3 && k < 4
    ensures Value(Group(g)[k]) == Indices(g + Zeros(3 - |g|))[k] && (Group(g)[k] == '=' <==> k > |g|)
  {
    hide Symbols, Indices, Value;
    var z := g + Zeros(3 - |g|);
    PaddingIsZero();
    if k <= |g| { SymbolBack(z, k); } else { ZeroTail(z, |g|, k); }
  }

  /** A printed group is read back as one block. */
  lemma GroupBack(g: Bytes, rest: Text)
    requires 1 <= |g| <= 3
    ensures NextBlock(Group(g) + rest) == Decoded(g, rest)
  {
    var z := g + Zeros(3 - |g|);
    assert z[..|g|] == g;
    hide Group, Value, Indices, Symbols, Zeros, Ungrouped;
    var t := Group(g) + rest;
    assert t[..4] == Group(g) && t[4..] == rest;
    GroupSymbol(g, 0); GroupSymbol(g, 1); GroupSymbol(g, 2); GroupSymbol(g, 3);
    UngroupedIndices(z);
    assert [Indices(z)[0], Indices(z)[1], Indices(z)[2], Indices(z)[3]] == Indices(z);
  }

  /** Decoding undoes encoding, and encodings may follow one another. */
  lemma {:induction false} DecodeEncoded(s: Bytes, rest: Text)
    ensures Decode(Encoded(s) + rest) == match Decode(rest) case None => None case Some(more) => Some(s + more)
    decreases |s|
  {
    hide Group, NextBlock;
    if |s| < 3 {
      assert Encoded(s) == LastGroup(s);
      if s == [] {
        assert [] + rest == rest;
        EmptyFirst(rest);
      } else {
        GroupBack(s, rest);
      }
    } else {
      var g, tail := s[..3], Encoded(s[3..]) + rest;
      assert FullGroup(g) == Group(g);
      assert Encoded(s) + rest == Group(g) + tail;
      GroupBack(g, tail);
      DecodeEncoded(s[3..], rest);
      FirstPart(s, rest);
    }
  }

  lemma EmptyFirst(rest: Text)
    ensures Decode(rest) == match Decode(rest) case None => None case Some(more) => Some([] + more)
  {
    if Decode(rest).Some? { assert [] + Decode(rest).value == Decode(rest).value; }
  }

  lemma FirstPart(s: Bytes, rest: Text)
    requires |s| >= 3
    ensures Decode(rest).Some? ==> s[..3] + (s[3..] + Decode(rest).value) == s + Decode(rest).value
  {
  }

  datatype ReadResult = Eof | Throws | Got(byte: Byte)

  /** The decoding buffer; input is what is left of the stream it reads from. */
  class Decoder {
    const table: array<int>
    const group: array<Byte>
    var groupLength: nat
    var groupIndex: nat
    var input: Text

    ghost predicate Valid()
      reads this, table, group
    {
      table.Length == 256 && (forall c: Octet :: table[c as int] == Value(c)) && group.Length == 3 && groupIndex <= groupLength <= 3
    }

    /** Bytes decoded but not delivered yet. */
    ghost function Pending(): Bytes
      requires Valid()
      reads this, table, group
    {
      group[groupIndex..groupLength]
    }

    /** All that reading on will deliver. */
    ghost function Ahead(): Option<Bytes>
      requires Valid()
      reads this, table, group
    {
      match Decode(Unbroken(input)) case None => None case Some(more) => Some(Pending() + more)
    }

    constructor (input: Text)
      ensures Valid() && fresh(table) && fresh(group) && Ahead() == Decode(Unbroken(input))
    {
      AlphabetIsAlphabet();
      var t := BuildTable(OUT_ENCODING);
      table, group := t, new Byte[3](_ => 0);
      groupLength, groupIndex, this.input := 0, 0, input;
      new;
      EmptyFirst(Unbroken(input));
    }

    /** readFromDevice: the next byte, the end of the stream, or an exception. */
    method ReadFromDevice() returns (r: ReadResult)
      requires Valid()
      modifies `groupLength, `groupIndex, `input, group
      ensures r.Got? ==> Valid() && (match old(Ahead())
                                     case None => Ahead() == None
                                     case Some(all) => all != [] && all[0] == r.byte && Ahead() == Some(all[1..]))
      ensures r == Eof ==> Valid() && old(Ahead()) == Some([])
      ensures r == Throws ==> old(Ahead()) == None
      ensures r.Got? ==> 3 * |input| + |Pending()| < old(3 * |input| + |Pending()|)
    {
      hide Decode, Unbroken;
      if groupIndex < groupLength {
        r := Got(group[groupIndex]);
        ghost var pending := Pending();
        groupIndex := groupIndex + 1;
        assert Pending() == pending[1..];
        Shifted(pending, Decode(Unbroken(input)));
      } else {
        assert Pending() == [];
        BlockFirst(Unbroken(input));
        r := ReadBlock();
      }
    }

    /** The next block, of which the first byte is delivered. */
    method ReadBlock() returns (r: ReadResult)
      requires Valid() && Pending() == []
      modifies `groupLength, `groupIndex, `input, group
      ensures |input| <= old(|input|)
      ensures match NextBlock(Unbroken(old(input)))
              case End => r == Eof && Valid() && Pending() == []
              case Malformed => r == Throws
              case Decoded(bytes, rest) =>
                Valid() && r == Got(bytes[0]) && Pending() == bytes[1..] && Unbroken(input) == rest && |input| < old(|input|)
    {
      hide Decode, BytesOf, Unbroken;
      ghost var t := Unbroken(input);
      var status, buffer := ReadBuffer();
      if status == Some(Eof) { return Eof; }
      if status == Some(Throws) { return Throws; }
      Regroup(buffer);
      groupLength := GroupLength(buffer);
      groupIndex := 1;
      r := Got(group[0]);
      assert Pending() == group[..groupLength][1..];
    }

    /** The bytes of a block go into the group. */
    method Regroup(buffer: Text)
      requires Valid() && |buffer| == 4 && AllKnown(buffer)
      modifies group
      ensures Valid() && group[..GroupLength(buffer)] == BytesOf(buffer)
    {
      hide Value, Decode;
      var v := [table[buffer[0] as int], table[buffer[1] as int], table[buffer[2] as int], table[buffer[3] as int]];
      assert v == [Value(buffer[0]), Value(buffer[1]), Value(buffer[2]), Value(buffer[3])];
      var g := Ungrouped(v);
      hide Ungrouped;
      group[0], group[1], group[2] := g[0], g[1], g[2];
      assert group[..] == g;
    }

    /** The four characters of a block, one after the other. */
    method ReadBuffer() returns (status: Option<ReadResult>, buffer: Text)
      requires Valid()
      modifies `input
      ensures Valid() && |input| <= old(|input|)
      ensures match NextBlock(Unbroken(old(input)))
              case End => status == Some(Eof)
              case Malformed => status == Some(Throws)
              case Decoded(bytes, rest) =>
                status == None && AllKnown(buffer) && |buffer| == 4 && BytesOf(buffer) == bytes && Unbroken(input) == rest &&
                |input| < old(|input|)
    {
      hide BytesOf, Value, Unbroken;
      ghost var t := Unbroken(input);
      buffer, status := [], None;
      while |buffer| < 4
        invariant |buffer| <= 4 && t == buffer + Unbroken(input) && AllKnown(buffer) && Valid()
        invariant |input| <= old(|input|) && (buffer != [] ==> |input| < old(|input|))
      {
        var c := ReadOne();
        if c == None {
          assert t == buffer;
          return Some(if buffer == [] then Eof else Throws), buffer;
        }
        ghost var rest := Unbroken(input);
        assert t == buffer + [c.value] + rest;
        if table[c.value as int] == INVALID {
          UnknownStays(t, |buffer|);
          return Some(Throws), buffer;
        }
        buffer := buffer + [c.value];
      }
      assert t[..4] == buffer && t[4..] == Unbroken(input);
    }

    /** readOne: the next character that is no space or line break. */
    method ReadOne() returns (c: Option<Octet>)
      modifies `input
      ensures |input| <= old(|input|)
      ensures c == None ==> Unbroken(old(input)) == [] && Unbroken(input) == []
      ensures c.Some? ==> Unbroken(old(input)) == [c.value] + Unbroken(input) && |input| < old(|input|)
    {
      while input != [] && IsBreak(input[0])
        invariant Unbroken(input) == Unbroken(old(input)) && |input| <= old(|input|)
        decreases |input|
      {
        assert Unbroken(input) == [] + Unbroken(input[1..]);
        input := input[1..];
      }
      if input == [] { return None; }
      c := Some(input[0]);
      input := input[1..];
    }
  }

  lemma UnknownStays(t: Text, k: nat)
    requires k < 4 && k < |t| && Value(t[k]) == INVALID
    ensures NextBlock(t) == Malformed
  {
    hide Value;
    if |t| >= 4 { assert t[..4][k] == t[k]; }
  }

  lemma Shifted(pending: Bytes, more: Option<Bytes>)
    requires pending != []
    ensures more.Some? ==> (pending + more.value)[0] == pending[0] && (pending + more.value)[1..] == pending[1..] + more.value
  {
  }

  /** Decoding begins with the next block. */
  lemma BlockFirst(t: Text)
    ensures match NextBlock(t)
            case End => Decode(t) == Some([]) && [] + Decode(t).value == []
            case Malformed => Decode(t) == None
            case Decoded(bytes, rest) =>
              |bytes| <= 3 &&
              match Decode(rest)
              case None => Decode(t) == None
              case Some(more) =>
                Decode(t).Some? && [] + Decode(t).value != [] &&
                ([] + Decode(t).value)[0] == bytes[0] && ([] + Decode(t).value)[1..] == bytes[1..] + more
  {
    hide BytesOf, AllKnown;
    match NextBlock(t)
    case End =>
    case Malformed =>
    case Decoded(bytes, rest) =>
      if Decode(rest).Some? { Shifted(bytes, Decode(rest)); EmptyFirst(t); }
  }

  /** Read to the end of the stream. */
  method ReadAll(input: Text) returns (bytes: Option<Bytes>)
    ensures bytes == Decode(Unbroken(input))
  {
    hide Decode, NextBlock, Unbroken, Decoder.Ahead, Decoder.Pending, Decoder.Valid;
    var decoder := new Decoder(input);
    var got: Bytes := [];
    EmptyFirst(Unbroken(input));
    while true
      invariant decoder.Valid() && fresh(decoder) && fresh(decoder.group)
      invariant match decoder.Ahead()
                case None => Decode(Unbroken(input)) == None
                case Some(more) => Decode(Unbroken(input)) == Some(got + more)
      decreases 3 * |decoder.input| + |decoder.Pending()|
    {
      ghost var ahead := decoder.Ahead();
      var r := decoder.ReadFromDevice();
      if r == Throws { return None; }
      if r == Eof {
        assert got + [] == got;
        return Some(got);
      }
      if ahead.Some? { assert got + ahead.value == got + [r.byte] + ahead.value[1..]; }
      got := got + [r.byte];
    }
  }

  lemma DecodeNothing()
    ensures Decode([]) == Some([])
  {
  }

  function Broken(t: Text, lineLength: int): Text {
    if lineLength > 0 then Lines(t, Width(lineLength), Width(lineLength)) else t
  }

  /** What the encoder puts out for some bytes, in lines; the last group is not followed by a break. */
  function LinesOf(s: Bytes, lineLength: int): Text {
    Broken(WholeGroups(s, 3, FullGroup), lineLength) + LastGroup(Remainder(s, 3))
  }

  /** The position on the line fits the characters put out. */
  ghost predicate OnLine(t: Text, lineLength: int, pos: int) {
    |t| % 4 == 0 && (lineLength > 0 ==> pos == Width(lineLength) - RoomLeft(|t|, Width(lineLength), Width(lineLength)))
  }

  /** One more group: it wraps exactly when it fills its line. */
  lemma LineStep(t: Text, g: Text, lineLength: int, pos: int)
    requires |g| == 4 && OnLine(t, lineLength, pos)
    ensures var wraps := lineLength > 0 && pos + 4 >= lineLength;
            Broken(t + g, lineLength) == Broken(t, lineLength) + g + (if wraps then CRLF else []) &&
            OnLine(t + g, lineLength, if wraps then 0 else pos + 4)
  {
    hide Lines, RoomLeft;
    if lineLength > 0 {
      var w := Width(lineLength);
      LinesGrow(t, g, w, w);
      assert RoomLeft(|t|, w, w) == 4 <==> pos + 4 >= lineLength;
      assert |t + g| == |t| + 4;
    }
  }

  lemma EmptyLine(lineLength: int)
    ensures WholeGroups([], 3, FullGroup) == [] && Broken([], lineLength) == [] && OnLine([], lineLength, 0)
  {
  }

  /** Whatever bytes are written with whatever line length, the text is their encoding in full lines, and the decoder reads the
      bytes back from it. */
  method EncodeAndDecode(bytes: Bytes, lineLength: int) returns (text: Text, back: Option<Bytes>)
    ensures text == LinesOf(bytes, lineLength) && Unbroken(text) == Encoded(bytes) && back == Some(bytes)
  {
    hide Decode, Encoded, Unbroken, LinesOf;
    text := EncodeAll(bytes, lineLength);
    DecodeEncoded(bytes, []);
    DecodeNothing();
    Grouped(Encoded(bytes), [], []);
    assert bytes + [] == bytes;
    back := ReadAll(text);
  }

  method EncodeAll(bytes: Bytes, lineLength: int) returns (text: Text)
    ensures text == LinesOf(bytes, lineLength) && Unbroken(text) == Encoded(bytes)
  {
    var encoder := new Encoder();
    encoder.SetLineLength(lineLength);
    EmptyLine(lineLength);
    NothingUnbroken();
    hide WholeGroups, Remainder, Broken, OnLine, Unbroken, Encoded, LastGroup, Encoder.Valid, FullGroup;
    for i := 0 to |bytes|
      invariant encoder.Valid() && fresh(encoder) && fresh(encoder.group) && encoder.lineLength == lineLength
      invariant encoder.written == bytes[..i] && encoder.sent == []
      invariant encoder.out == Broken(WholeGroups(bytes[..i], 3, FullGroup), lineLength)
      invariant OnLine(WholeGroups(bytes[..i], 3, FullGroup), lineLength, encoder.pos)
    {
      assert bytes[..i + 1] == bytes[..i] + [bytes[i]];
      ByteStep(bytes[..i], bytes[i], lineLength, encoder.pos);
      encoder.WriteToDevice(bytes[i]);
    }
    assert bytes[..|bytes|] == bytes;
    encoder.Close();
    text := encoder.out;
    assert [] + Encoded(bytes) == Encoded(bytes);
  }

  lemma NothingUnbroken()
    ensures Unbroken([]) == []
  {
  }

  lemma ByteStep(s: Bytes, c: Byte, lineLength: int, pos: int)
    requires OnLine(WholeGroups(s, 3, FullGroup), lineLength, pos)
    ensures var t, t' := WholeGroups(s, 3, FullGroup), WholeGroups(s + [c], 3, FullGroup);
            var g := Remainder(s, 3) + [c];
            if |g| < 3 then t' == t
            else
              var wraps := lineLength > 0 && pos + 4 >= lineLength;
              Broken(t', lineLength) == Broken(t, lineLength) + FullGroup(g) + (if wraps then CRLF else []) &&
              OnLine(t', lineLength, if wraps then 0 else pos + 4)
  {
    OneMoreByte(s, c, 3, FullGroup);
    hide WholeGroups, Remainder, Broken, OnLine, Group;
    var g := Remainder(s, 3) + [c];
    if |g| == 3 { LineStep(WholeGroups(s, 3, FullGroup), FullGroup(g), lineLength, pos); }
  }
}
