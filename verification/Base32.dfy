/** Base32 encoding and decoding streams (Foundation/src/Base32Encoder.cpp, Base32Decoder.cpp). Shifts and masks are divisions and
    remainders; or-ing bits that do not overlap is a sum. */
module Base32 {
  import opened Wrappers
  import opened BaseCoding

  const OUT_ENCODING: Text := "ABCDEFGHIJKLMNOPQRSTUVWXYZ234567"

  /** Table 3 of RFC 4648. */
  lemma AlphabetIs(i: nat)
    requires i < 32
    ensures |OUT_ENCODING| == 32
    ensures OUT_ENCODING[i] as int == if i < 26 then 'A' as int + i else '2' as int + (i - 26)
  {
  }

  /** The eight indices of a group of five bytes. */
  function Indices(g: Bytes): (r: seq<int>)
    requires |g| == 5
    ensures |r| == 8 && forall k :: 0 <= k < 8 ==> 0 <= r[k] < 32
  {
    [g[0] / 8, g[0] % 8 * 4 + g[1] / 64, g[1] / 2 % 32, g[1] % 2 * 16 + g[2] / 16,
     g[2] % 16 * 2 + g[3] / 128, g[3] / 4 % 32, g[3] % 4 * 8 + g[4] / 32, g[4] % 32]
  }

  /** The indices are the base 32 digits of the group read as a base 256 number: section 6 of RFC 4648. */
  lemma IndicesAreDigits(g: Bytes)
    requires |g| == 5
    ensures Number(32, Indices(g)) == Number(256, g)
  {
    var r := Indices(g);
    assert g == [g[0], g[1], g[2], g[3], g[4]];
    assert r == [r[0], r[1], r[2], r[3], r[4], r[5], r[6], r[7]];
    Number5(256, g[0], g[1], g[2], g[3], g[4]);
    Number8(r[0], r[1], r[2], r[3], r[4], r[5], r[6], r[7]);
    Middle64(g[1]);
    Middle128(g[3]);
    hide Number;
    Digits(g[0], g[1], g[2], g[3], g[4], g[1] / 2 % 32, g[3] / 4 % 32);
  }

  lemma Middle64(b: int)
    requires 0 <= b < 256
    ensures b == b / 64 * 64 + b / 2 % 32 * 2 + b % 2
  {
    assert b / 2 / 32 == b / 64;
  }

  lemma Middle128(b: int)
    requires 0 <= b < 256
    ensures b == b / 128 * 128 + b / 4 % 32 * 4 + b % 4
  {
    assert b / 4 / 32 == b / 128;
  }

  lemma Digits(a: int, b: int, c: int, d: int, e: int, m: int, n: int)
    requires b == b / 64 * 64 + m * 2 + b % 2 && d == d / 128 * 128 + n * 4 + d % 4
    ensures (((((((a / 8) * 32 + (a % 8 * 4 + b / 64)) * 32 + m) * 32 + (b % 2 * 16 + c / 16)) * 32 + (c % 16 * 2 + d / 128)) * 32 + n)
             * 32 + (d % 4 * 8 + e / 32)) * 32 + e % 32
            == (((a * 256 + b) * 256 + c) * 256 + d) * 256 + e
  {
    assert a == a / 8 * 8 + a % 8 && c == c / 16 * 16 + c % 16 && e == e / 32 * 32 + e % 32;
  }

  lemma Number5(base: int, a: int, b: int, c: int, d: int, e: int)
    ensures Number(base, [a, b, c, d, e]) == (((a * base + b) * base + c) * base + d) * base + e
  {
    assert [a, b, c] + [d] == [a, b, c, d] && [a, b, c, d] + [e] == [a, b, c, d, e];
    Number3(base, a, b, c);
    NumberStep(base, [a, b, c], d);
    NumberStep(base, [a, b, c, d], e);
    hide Number;
  }

  lemma Number8(a: int, b: int, c: int, d: int, e: int, f: int, g: int, h: int)
    ensures Number(32, [a, b, c, d, e, f, g, h]) == ((((((a * 32 + b) * 32 + c) * 32 + d) * 32 + e) * 32 + f) * 32 + g) * 32 + h
  {
    assert [a, b, c, d, e] + [f] == [a, b, c, d, e, f] && [a, b, c, d, e, f] + [g] == [a, b, c, d, e, f, g];
    assert [a, b, c, d, e, f, g] + [h] == [a, b, c, d, e, f, g, h];
    Number5(32, a, b, c, d, e);
    NumberStep(32, [a, b, c, d, e], f);
    NumberStep(32, [a, b, c, d, e, f], g);
    NumberStep(32, [a, b, c, d, e, f, g], h);
    hide Number;
  }

  /** How many characters carry a group of k bytes. */
  function Characters(k: nat): (n: nat)
    requires k <= 5
    ensures n <= 8
  {
    [0, 2, 4, 5, 7, 8][k]
  }

  function Repeated(c: Octet, n: nat): (r: Text)
    ensures |r| == n && forall i :: 0 <= i < n ==> r[i] == c
  {
    if n == 0 then [] else [c] + Repeated(c, n - 1)
  }

  /** The characters of a whole group. */
  function Symbols(g: Bytes): (s: Text)
    requires |g| == 5
    ensures |s| == 8
  {
    var r := Indices(g);
    [OUT_ENCODING[r[0]], OUT_ENCODING[r[1]], OUT_ENCODING[r[2]], OUT_ENCODING[r[3]],
     OUT_ENCODING[r[4]], OUT_ENCODING[r[5]], OUT_ENCODING[r[6]], OUT_ENCODING[r[7]]]
  }

  /** A group of up to five bytes: as many characters as carry it, of the group filled up with zeros, then padding. */
  function Group(g: Bytes, padding: bool): Text
    requires |g| <= 5
  {
    var n := Characters(|g|);
    Symbols(g + Zeros(5 - |g|))[..n] + if padding && n > 0 then Repeated('=', 8 - n) else []
  }

  function FullGroup(g: Bytes): Text {
    if |g| == 5 then Group(g, true) else []
  }

  /** The encoding of a byte sequence. */
  function Encoded(s: Bytes, padding: bool): Text {
    WholeGroups(s, 5, FullGroup) + Group(Remainder(s, 5), padding)
  }

  /** Whole groups in front are encoded on their own, in their order. */
  lemma {:induction false} EncodedConcat(a: Bytes, b: Bytes, padding: bool)
    requires |a| % 5 == 0
    ensures Encoded(a + b, padding) == Encoded(a, padding) + Encoded(b, padding)
    decreases |a|
  {
    hide *;
    if a == [] {
      NothingEncoded(padding);
      assert a + b == b;
      assert [] + Encoded(b, padding) == Encoded(b, padding);
    } else {
      assert (a + b)[..5] == a[..5] && (a + b)[5..] == a[5..] + b;
      EncodedConcat(a[5..], b, padding);
      FirstGroup(a, padding);
      FirstGroup(a + b, padding);
      Grouped(FullGroup(a[..5]), Encoded(a[5..], padding), Encoded(b, padding));
    }
  }

  lemma NothingEncoded(padding: bool)
    ensures Encoded([], padding) == []
  {
    NothingWritten();
    NoGroup(padding);
  }

  lemma FirstGroup(s: Bytes, padding: bool)
    requires |s| >= 5
    ensures Encoded(s, padding) == FullGroup(s[..5]) + Encoded(s[5..], padding)
  {
    hide FullGroup, Group;
    Grouped(FullGroup(s[..5]), WholeGroups(s[5..], 5, FullGroup), Group(Remainder(s[5..], 5), padding));
  }

  /** One group: the digits of its bytes with zeros behind them, as many as hold a bit of a byte, then padding up to eight
      characters if that is on. */
  lemma EncodedGroup(g: Bytes, padding: bool)
    requires 1 <= |g| <= 5
    ensures var n := (8 * |g| + 4) / 5;
            |Encoded(g, padding)| == (if padding then 8 else n) &&
            forall j :: 0 <= j < |Encoded(g, padding)| ==>
              Encoded(g, padding)[j] == if j < n then OUT_ENCODING[Indices(g + Zeros(5 - |g|))[j]] else '='
  {
    hide *;
    EncodedIsGroup(g, padding);
    GroupCharacters(g, padding);
  }

  lemma EncodedIsGroup(g: Bytes, padding: bool)
    requires 1 <= |g| <= 5
    ensures Encoded(g, padding) == Group(g, padding)
  {
    NothingWritten();
    NoGroup(padding);
    if |g| == 5 {
      assert g[..5] == g && g[5..] == [];
      PaddedGroup(g);
    }
    hide Group, Symbols;
  }

  lemma GroupCharacters(g: Bytes, padding: bool)
    requires 1 <= |g| <= 5
    ensures var n := (8 * |g| + 4) / 5;
            |Group(g, padding)| == (if padding then 8 else n) &&
            forall j :: 0 <= j < |Group(g, padding)| ==>
              Group(g, padding)[j] == if j < n then OUT_ENCODING[Indices(g + Zeros(5 - |g|))[j]] else '='
  {
    var n := Characters(|g|);
    assert n == (8 * |g| + 4) / 5;
    SymbolsAre(g + Zeros(5 - |g|));
    hide Indices, Symbols, Characters;
  }

  lemma SymbolsAre(g: Bytes)
    requires |g| == 5
    ensures forall j :: 0 <= j < 8 ==> Symbols(g)[j] == OUT_ENCODING[Indices(g)[j]]
  {
    hide Indices;
  }

  /** The encoding buffer; out is the stream it writes to. */
  class Encoder {
    var group: array<Byte>
    var groupLength: nat
    const doPadding: bool
    var out: Text

    /** The bytes written since the last close, and what the stream held before them. */
    ghost var written: Bytes
    ghost var sent: Text

    ghost predicate Valid()
      reads this, group
    {
      group.Length == 5 && groupLength < 5 && group[..groupLength] == Remainder(written, 5) &&
      out == sent + WholeGroups(written, 5, FullGroup)
    }

    constructor (doPadding: bool)
      ensures Valid() && fresh(group) && written == [] && sent == [] && out == [] && this.doPadding == doPadding
    {
      this.doPadding := doPadding;
      group, groupLength, out := new Byte[5](_ => 0), 0, [];
      written, sent := [], [];
    }

    method WriteToDevice(c: Byte)
      requires Valid()
      modifies this, group
      ensures Valid() && written == old(written) + [c] && sent == old(sent) && group == old(group)
    {
      hide WholeGroups, Remainder, Group;
      OneMoreByte(written, c, 5, FullGroup);
      group[groupLength] := c;
      groupLength := groupLength + 1;
      assert group[..groupLength] == Remainder(written, 5) + [c];
      if groupLength == 5 {
        ghost var whole, g := WholeGroups(written, 5, FullGroup), group[..];
        WriteGroup();
        assert g == group[..5];
        Grouped(sent, whole, FullGroup(g));
        groupLength := 0;
      }
      written := written + [c];
    }

    /** The eight sputc calls for a whole group. */
    method WriteGroup()
      requires group.Length == 5
      modifies `out
      ensures out == old(out) + FullGroup(group[..])
    {
      hide Indices;
      FullGroupIs(group[..]);
      hide FullGroup;
      var r := Indices(group[..]);
      out := out + [OUT_ENCODING[r[0]], OUT_ENCODING[r[1]], OUT_ENCODING[r[2]], OUT_ENCODING[r[3]],
                    OUT_ENCODING[r[4]], OUT_ENCODING[r[5]], OUT_ENCODING[r[6]], OUT_ENCODING[r[7]]];
    }

    /** close: the last group, shorter and padded; the encoder starts afresh. */
    method Close()
      requires Valid()
      modifies this, group
      ensures Valid() && out == old(sent) + Encoded(old(written), doPadding) && sent == out && written == [] && group == old(group)
    {
      ghost var rest, whole := Remainder(written, 5), WholeGroups(written, 5, FullGroup);
      NothingWritten();
      assert Encoded(written, doPadding) == whole + Group(rest, doPadding);
      hide WholeGroups, Remainder, Group, Encoded;
      WriteRest(rest);
      Grouped(sent, whole, Group(rest, doPadding));
      groupLength, written, sent := 0, [], out;
      Grouped(out, [], []);
    }

    method WriteRest(ghost rest: Bytes)
      requires group.Length == 5 && groupLength < 5 && rest == group[..groupLength]
      modifies `out, group
      ensures out == old(out) + Group(rest, doPadding)
    {
      hide Group;
      NoGroup(doPadding);
      if groupLength > 0 {
        group[groupLength] := 0;
        WriteTail(groupLength, rest);
      }
    }

    method WritePadding(n: nat)
      modifies `out
      ensures out == old(out) + Repeated('=', n)
    {
      for i := 0 to n
        invariant out == old(out) + Repeated('=', i)
      {
        RepeatedNext('=', i);
        out := out + "=";
      }
    }

    /** The branches of close. */
    method WriteTail(k: nat, ghost rest: Bytes)
      requires group.Length == 5 && 1 <= k <= 4 && rest == group[..k]
      modifies `out
      ensures out == old(out) + Group(rest, doPadding)
    {
      ghost var out0 := out;
      hide Indices;
      var s := Symbols(group[..k] + Zeros(5 - k));
      hide Symbols;
      var n := Characters(k);
      out := out + [s[0], s[1]];
      if k >= 2 { out := out + [s[2], s[3]]; }
      if k >= 3 { out := out + [s[4]]; }
      if k >= 4 { out := out + [s[5], s[6]]; }
      assert out == out0 + s[..n];
      UnpaddedGroup(rest);
      hide Group, Characters;
      if doPadding {
        PaddedGroup(rest);
        WritePadding(8 - n);
        assert out == out0 + (Group(rest, false) + Repeated('=', 8 - n));
      }
    }
  }

  lemma FullGroupIs(g: Bytes)
    requires |g| == 5
    ensures FullGroup(g) == Symbols(g)
  {
    hide Symbols;
    assert g + Zeros(0) == g;
    assert Symbols(g)[..8] == Symbols(g);
  }

  lemma NoGroup(padding: bool)
    ensures Group([], padding) == []
  {
  }

  lemma NothingWritten()
    ensures WholeGroups([], 5, FullGroup) == [] && Remainder([], 5) == []
  {
  }

  lemma RepeatedNext(c: Octet, n: nat)
    ensures Repeated(c, n) + [c] == Repeated(c, n + 1)
  {
  }

  lemma UnpaddedGroup(g: Bytes)
    requires |g| <= 5
    ensures Group(g, false) == Symbols(g + Zeros(5 - |g|))[..Characters(|g|)]
  {
  }

  lemma PaddedGroup(g: Bytes)
    requires 1 <= |g| <= 5
    ensures Group(g, true) == Group(g, false) + Repeated('=', 8 - Characters(|g|))
  {
    hide Symbols;
  }

  // ----- decoding -----

  /** What the next block of the input is. */
  datatype Block = End | Malformed | Decoded(bytes: Bytes, rest: Text)

  function Value(c: Octet): (v: int)
    ensures v == INVALID || 0 <= v < 32
  {
    ValueOf(OUT_ENCODING, c)
  }

  predicate AllKnown(t: Text) {
    forall i :: 0 <= i < |t| ==> Value(t[i]) != INVALID
  }

  function Min(a: nat, b: nat): nat { if a < b then a else b }

  /** Up to eight characters of the alphabet or padding, of which a last block may have 2, 4, 5 or 7. */
  function NextBlock(t: Text): Block {
    var n := Min(8, |t|);
    if n == 0 then End
    else if !AllKnown(t[..n]) || n == 1 || n == 3 || n == 6 then Malformed
    else Decoded(BytesOf(Filled(t[..n])), t[n..])
  }

  function Filled(t: Text): (b: Text)
    requires |t| <= 8
    ensures |b| == 8
  {
    t + Repeated('=', 8 - |t|)
  }

  /** The bytes of a filled block: as many as the place of the padding says. */
  function BytesOf(b: Text): (r: Bytes)
    requires |b| == 8 && AllKnown(b)
    ensures 1 <= |r| <= 5
  {
    Ungrouped(seq(8, i requires 0 <= i < 8 => Value(b[i])))[..GroupLength(b)]
  }

  function GroupLength(b: Text): (n: nat)
    requires |b| == 8
    ensures 1 <= n <= 5
  {
    if b[2] == '=' then 1 else if b[4] == '=' then 2 else if b[5] == '=' then 3 else if b[7] == '=' then 4 else 5
  }

  function Ungrouped(v: seq<int>): (g: Bytes)
    requires |v| == 8 && forall i :: 0 <= i < 8 ==> 0 <= v[i] < 32
    ensures |g| == 5
  {
    [v[0] * 8 + v[1] / 4, v[1] % 4 * 64 + v[2] * 2 + v[3] / 16, v[3] % 16 * 16 + v[4] / 2,
     v[4] % 2 * 128 + v[5] * 4 + v[6] / 8, v[6] % 8 * 32 + v[7]]
  }

  /** Everything a text decodes to; None where the decoder throws. */
  function Decode(t: Text): Option<Bytes>
    decreases |t|
  {
    match NextBlock(t)
    case End => Some([])
    case Malformed => None
    case Decoded(bytes, rest) => (match Decode(rest) case None => None case Some(more) => Some(bytes + more))
  }

  predicate Permitted(t: Text) {
    forall i :: 0 <= i < |t| ==> t[i] == '=' || t[i] in OUT_ENCODING
  }

  lemma PermittedParts(a: Text, b: Text)
    ensures Permitted(a + b) <==> Permitted(a) && Permitted(b)
  {
    hide OUT_ENCODING;
    if Permitted(a + b) {
      assert forall i :: 0 <= i < |a| ==> a[i] == (a + b)[i];
      assert forall i :: 0 <= i < |b| ==> b[i] == (a + b)[|a| + i];
    }
  }

  /** Any text is accepted if and only if it has no character but those of the alphabet and equals signs, and a last block of the
      lengths that section 6 of RFC 4648 permits. */
  lemma {:induction false} AcceptedExactly(t: Text)
    ensures Decode(t).Some? <==>
            |t| % 8 in {0, 2, 4, 5, 7} && Permitted(t)
    decreases |t|
  {
    hide *;
    if t == [] {
      NothingDecoded();
    } else {
      var n := if |t| < 8 then |t| else 8;
      var first, rest := t[..n], t[n..];
      DecodeStep(t, n);
      assert t == first + rest && |t| == n + |rest|;
      AcceptedExactly(rest);
      AllKnownExactly(first);
      PermittedParts(first, rest);
    }
  }

  lemma NothingDecoded()
    ensures Decode([]).Some? && Permitted([])
  {
  }

  lemma DecodeStep(t: Text, n: nat)
    requires t != [] && n == if |t| < 8 then |t| else 8
    ensures Decode(t).Some? <==> AllKnown(t[..n]) && n != 1 && n != 3 && n != 6 && Decode(t[n..]).Some?
  {
    hide AllKnown, BytesOf, Filled;
  }

  lemma AllKnownExactly(t: Text)
    ensures AllKnown(t) <==> Permitted(t)
  {
    assert |OUT_ENCODING| == 32;
    hide OUT_ENCODING, ValueOf;
    forall i | 0 <= i < |t| ensures Value(t[i]) != INVALID <==> t[i] == '=' || t[i] in OUT_ENCODING {
      KnownIsWritten(OUT_ENCODING, t[i]);
    }
  }

  /** What is decoded are the values of a block, an equals sign being a zero, as the base 256 digits of the same number. */
  lemma UngroupedIsNumber(v: seq<int>)
    requires |v| == 8 && forall i :: 0 <= i < 8 ==> 0 <= v[i] < 32
    ensures Number(256, Ungrouped(v)) == Number(32, v)
  {
    var g := Ungrouped(v);
    assert g == [g[0], g[1], g[2], g[3], g[4]] && v == [v[0], v[1], v[2], v[3], v[4], v[5], v[6], v[7]];
    Number5(256, g[0], g[1], g[2], g[3], g[4]);
    Number8(v[0], v[1], v[2], v[3], v[4], v[5], v[6], v[7]);
    hide Number;
    SplitDigits(v[1], v[3], v[4], v[6]);
  }

  lemma SplitDigits(a: int, b: int, c: int, d: int)
    ensures a == a / 4 * 4 + a % 4 && b == b / 16 * 16 + b % 16 && c == c / 2 * 2 + c % 2 && d == d / 8 * 8 + d % 8
  {
  }

  lemma AlphabetIsFine()
    ensures IsAlphabet(OUT_ENCODING)
  {
    forall i: nat | i < 32 ensures OUT_ENCODING[i] == if i < 26 then 'A' + i as char else '2' + (i - 26) as char {
    }
  }

  lemma SymbolBack(g: Bytes, k: nat)
    requires |g| == 5 && k < 8
    ensures Value(Symbols(g)[k]) == Indices(g)[k] && Symbols(g)[k] != '='
  {
    var i := Indices(g)[k];
    assert Symbols(g)[k] == OUT_ENCODING[i];
    hide Symbols, Indices;
    AlphabetIsFine();
    ValueOfWritten(OUT_ENCODING, i);
  }

  lemma UngroupedIndices(g: Bytes)
    requires |g| == 5
    ensures Ungrouped(Indices(g)) == g
  {
    var v := Indices(g);
    Pair(g[0], 8); Pair(g[1], 64); Pair(g[2], 16); Pair(g[3], 128); Pair(g[4], 32);
    Middle64(g[1]); Middle128(g[3]);
    assert Ungrouped(v)[0] == g[0];
    assert Ungrouped(v)[1] == g[1];
    assert Ungrouped(v)[2] == g[2];
    assert Ungrouped(v)[3] == g[3];
    assert Ungrouped(v)[4] == g[4];
  }

  lemma Pair(b: int, n: int)
    requires 0 <= b && (n == 8 || n == 64 || n == 16 || n == 128 || n == 32)
    ensures b == b / n * n + b % n
  {
  }

  /** Filling a short group with zeros leaves zeros where padding will be. */
  lemma NoIndicesLeft(g: Bytes, k: nat)
    requires 1 <= |g| <= 5 && Characters(|g|) <= k < 8
    ensures Indices(g + Zeros(5 - |g|))[k] == 0
  {
    var z := g + Zeros(5 - |g|);
    ZeroTail(z, |g|, k);
  }

  lemma ZeroTail(z: Bytes, n: nat, k: nat)
    requires |z| == 5 && 1 <= n <= 5 && Characters(n) <= k < 8 && forall i :: n <= i < 5 ==> z[i] == 0
    ensures Indices(z)[k] == 0
  {
    assert n <= 4 ==> z[4] == 0;
    assert n <= 3 ==> z[3] == 0;
    assert n <= 2 ==> z[2] == 0;
    assert n <= 1 ==> z[1] == 0;
  }

  lemma PaddingIsZero()
    ensures Value('=') == 0
  {
  }

  /** The characters of a short group, filled up with padding. */
  function FilledGroup(g: Bytes): (b: Text)
    requires 1 <= |g| <= 5
    ensures |b| == 8
  {
    Symbols(g + Zeros(5 - |g|))[..Characters(|g|)] + Repeated('=', 8 - Characters(|g|))
  }

  lemma GroupText(g: Bytes, padding: bool, rest: Text)
    requires 1 <= |g| <= 5 && (padding || |g| == 5 || rest == [])
    ensures var t := Group(g, padding) + rest;
            var m := Min(8, |t|);
            Filled(t[..m]) == FilledGroup(g) && t[m..] == rest && (m == 8 || m == Characters(|g|))
  {
    hide Symbols;
    var t := Group(g, padding) + rest;
    var m := Min(8, |t|);
    if padding || |g| == 5 {
      assert |Group(g, padding)| == 8 && t[..8] == Group(g, padding) && t[8..] == rest;
      assert Repeated('=', 0) == [];
    } else {
      assert t == Group(g, padding) && t[..m] == t && t[m..] == [];
    }
  }

  lemma FilledBack(g: Bytes)
    requires 1 <= |g| <= 5
    ensures AllKnown(FilledGroup(g)) && BytesOf(FilledGroup(g)) == g
  {
    var z := g + Zeros(5 - |g|);
    assert z[..|g|] == g;
    hide *;
    forall k: nat | k < 8 ensures Value(FilledGroup(g)[k]) == Indices(z)[k] && (FilledGroup(g)[k] == '=' <==> k >= Characters(|g|)) {
      FilledSymbol(g, k);
    }
    FilledValues(FilledGroup(g), Indices(z), |g|);
    UngroupedIndices(z);
  }

  lemma FilledSymbol(g: Bytes, k: nat)
    requires 1 <= |g| <= 5 && k < 8
    ensures Value(FilledGroup(g)[k]) == Indices(g + Zeros(5 - |g|))[k] && (FilledGroup(g)[k] == '=' <==> k >= Characters(|g|))
  {
    hide Symbols, Indices, Repeated, Zeros, Value;
    var z := g + Zeros(5 - |g|);
    PaddingIsZero();
    if k < Characters(|g|) { SymbolBack(z, k); } else { NoIndicesLeft(g, k); }
  }

  lemma FilledValues(b: Text, v: seq<int>, k: nat)
    requires |b| == 8 && |v| == 8 && 1 <= k <= 5 && (forall i :: 0 <= i < 8 ==> 0 <= v[i] < 32)
    requires forall i: nat :: i < 8 ==> Value(b[i]) == v[i] && (b[i] == '=' <==> i >= Characters(k))
    ensures AllKnown(b) && GroupLength(b) == k && BytesOf(b) == Ungrouped(v)[..k]
  {
    hide Value, Ungrouped;
    assert seq(8, i requires 0 <= i < 8 => Value(b[i])) == v;
  }

  /** A group that ends in padding, is whole, or ends the text, is read back as one block. */
  lemma GroupBack(g: Bytes, padding: bool, rest: Text)
    requires 1 <= |g| <= 5 && (padding || |g| == 5 || rest == [])
    ensures NextBlock(Group(g, padding) + rest) == Decoded(g, rest)
  {
    hide Group, FilledGroup, BytesOf, Value;
    GroupText(g, padding, rest);
    FilledBack(g);
    var t := Group(g, padding) + rest;
    var m := Min(8, |t|);
    var b := Filled(t[..m]);
    assert t[..m] == b[..m];
    assert forall i :: 0 <= i < m ==> t[..m][i] == b[i];
  }

  /** Decoding undoes encoding, with or without padding; padded or whole encodings may follow one another. */
  lemma {:induction false} DecodeEncoded(s: Bytes, padding: bool, rest: Text)
    requires padding || Remainder(s, 5) == [] || rest == []
    ensures Decode(Encoded(s, padding) + rest) ==
            match Decode(rest) case None => None case Some(more) => Some(s + more)
    decreases |s|
  {
    hide Group, NextBlock, Indices;
    if |s| < 5 {
      assert Encoded(s, padding) == Group(s, padding);
      if s == [] {
        NoGroup(padding);
        assert [] + rest == rest;
        EmptyFirst(rest);
      } else {
        GroupBack(s, padding, rest);
      }
    } else {
      var g := s[..5];
      var tail := Encoded(s[5..], padding) + rest;
      FullGroupIs(g);
      assert FullGroup(g) == Group(g, true);
      assert Encoded(s, padding) + rest == Group(g, true) + tail;
      GroupBack(g, true, tail);
      DecodeEncoded(s[5..], padding, rest);
      FirstPart(s, rest);
    }
  }

  lemma EmptyFirst(rest: Text)
    ensures Decode(rest) == match Decode(rest) case None => None case Some(more) => Some([] + more)
  {
    if Decode(rest).Some? { assert [] + Decode(rest).value == Decode(rest).value; }
  }

  lemma FirstPart(s: Bytes, rest: Text)
    requires |s| >= 5
    ensures Decode(rest).Some? ==> s[..5] + (s[5..] + Decode(rest).value) == s + Decode(rest).value
  {
  }

  datatype ReadResult = Eof | Throws | Got(byte: Byte)

  /** The decoding buffer; input is what is left of the stream it reads from. */
  class Decoder {
    const table: array<int>
    const group: array<Byte>
    var groupLength: nat
    var groupIndex: nat
    var input: Text

    ghost predicate Valid()
      reads this, table, group
    {
      table.Length == 256 && (forall c: Octet :: table[c as int] == Value(c)) && group.Length == 5 &&
      groupIndex <= groupLength <= 5
    }

    /** Bytes decoded but not delivered yet. */
    ghost function Pending(): Bytes
      requires Valid()
      reads this, table, group
    {
      group[groupIndex..groupLength]
    }

    /** All that reading on will deliver. */
    ghost function Ahead(): Option<Bytes>
      requires Valid()
      reads this, table, group
    {
      match Decode(input) case None => None case Some(more) => Some(Pending() + more)
    }

    constructor (input: Text)
      ensures Valid() && fresh(table) && fresh(group) && Ahead() == Decode(input) && Pending() == []
    {
      AlphabetIsFine();
      var t := BuildTable(OUT_ENCODING);
      table, group := t, new Byte[5](_ => 0);
      groupLength, groupIndex, this.input := 0, 0, input;
      new;
      if Decode(input).Some? { assert [] + Decode(input).value == Decode(input).value; }
    }

    /** readFromDevice: the next byte, the end of the stream, or an exception. */
    method ReadFromDevice() returns (r: ReadResult)
      requires Valid()
      modifies `groupLength, `groupIndex, `input, group
      ensures r.Got? ==> Valid() && (match old(Ahead())
                                     case None => Ahead() == None
                                     case Some(all) => all != [] && all[0] == r.byte && Ahead() == Some(all[1..]))
      ensures r == Eof ==> Valid() && old(Ahead()) == Some([])
      ensures r == Throws ==> old(Ahead()) == None
      ensures r.Got? ==> 5 * |input| + |Pending()| < old(5 * |input| + |Pending()|)
    {
      hide Decode;
      if groupIndex < groupLength {
        r := Got(group[groupIndex]);
        ghost var pending := Pending();
        groupIndex := groupIndex + 1;
        assert Pending() == pending[1..];
        Shifted(pending, Decode(input));
      } else {
        ghost var t := input;
        assert Pending() == [];
        BlockFirst(t);
        r := ReadBlock();
      }
    }

    /** The next block, of which the first byte is delivered. */
    method ReadBlock() returns (r: ReadResult)
      requires Valid() && Pending() == []
      modifies `groupLength, `groupIndex, `input, group
      ensures match NextBlock(old(input))
              case End => r == Eof && Valid() && Pending() == [] && input == old(input)
              case Malformed => r == Throws
              case Decoded(bytes, rest) => Valid() && r == Got(bytes[0]) && Pending() == bytes[1..] && input == rest
    {
      hide Decode, BytesOf;
      var status, buffer := ReadBuffer();
      if status == Some(Eof) { return Eof; }
      if status == Some(Throws) { return Throws; }
      Regroup(buffer);
      groupLength := GroupLength(buffer);
      groupIndex := 1;
      r := Got(group[0]);
      assert Pending() == group[..groupLength][1..];
    }

    /** The bytes of a block go into the group. */
    method Regroup(buffer: Text)
      requires Valid() && |buffer| == 8 && AllKnown(buffer)
      modifies group
      ensures Valid() && group[..GroupLength(buffer)] == BytesOf(buffer)
    {
      hide Value, Decode;
      var v := [table[buffer[0] as int], table[buffer[1] as int], table[buffer[2] as int], table[buffer[3] as int],
                table[buffer[4] as int], table[buffer[5] as int], table[buffer[6] as int], table[buffer[7] as int]];
      assert v == seq(8, i requires 0 <= i < 8 => Value(buffer[i]));
      var g := Ungrouped(v);
      hide Ungrouped;
      group[0], group[1], group[2], group[3], group[4] := g[0], g[1], g[2], g[3], g[4];
      assert group[..] == g;
    }

    /** The characters of a block, one after the other; the buffer is preset with padding. */
    method ReadBuffer() returns (status: Option<ReadResult>, buffer: Text)
      requires Valid()
      modifies `input
      ensures Valid() && match NextBlock(old(input))
                         case End => status == Some(Eof) && input == old(input)
                         case Malformed => status == Some(Throws)
                         case Decoded(bytes, rest) =>
                           status == None && AllKnown(buffer) && |buffer| == 8 && BytesOf(buffer) == bytes && input == rest
    {
      hide BytesOf, Value;
      ghost var t := input;
      buffer, status := Repeated('=', 8), None;
      var k := 0;
      while k < 8
        invariant k <= 8 && k <= |t| && input == t[k..] && buffer == Filled(t[..k]) && AllKnown(t[..k]) && Valid()
      {
        if input == [] {
          if k == 0 { return Some(Eof), buffer; }
          if k == 1 || k == 3 || k == 6 { return Some(Throws), buffer; }
          break;
        }
        var c := input[0];
        OneFilled(t, k);
        input, buffer := input[1..], buffer[k := c];
        if table[c as int] == INVALID {
          UnknownStays(t, k);
          return Some(Throws), buffer;
        }
        k := k + 1;
      }
      assert k == Min(8, |t|);
      FilledKnown(t[..k]);
    }
  }

  lemma OneFilled(t: Text, k: nat)
    requires k < 8 && k < |t|
    ensures Filled(t[..k])[k := t[k]] == Filled(t[..k + 1]) && t[..k + 1] == t[..k] + [t[k]]
  {
    assert t[..k + 1] == t[..k] + [t[k]];
    assert Repeated('=', 8 - k) == ['='] + Repeated('=', 7 - k);
  }

  lemma UnknownStays(t: Text, k: nat)
    requires k < 8 && k < |t| && Value(t[k]) == INVALID
    ensures NextBlock(t) == Malformed
  {
    hide Value;
    var n := Min(8, |t|);
    assert t[..n][k] == t[k];
  }

  lemma FilledKnown(t: Text)
    requires |t| <= 8 && AllKnown(t)
    ensures AllKnown(Filled(t))
  {
    PaddingIsZero();
    hide Value;
  }

  /** Decoding begins with the next block. */
  lemma BlockFirst(t: Text)
    ensures match NextBlock(t)
            case End => Decode(t) == Some([]) && [] + Decode(t).value == []
            case Malformed => Decode(t) == None
            case Decoded(bytes, rest) =>
              |rest| < |t| && |bytes| <= 5 &&
              match Decode(rest)
              case None => Decode(t) == None
              case Some(more) =>
                Decode(t).Some? && [] + Decode(t).value != [] &&
                ([] + Decode(t).value)[0] == bytes[0] && ([] + Decode(t).value)[1..] == bytes[1..] + more
  {
    hide BytesOf, AllKnown, Filled;
    match NextBlock(t)
    case End =>
    case Malformed =>
    case Decoded(bytes, rest) =>
      if Decode(rest).Some? { Shifted(bytes, Decode(rest)); EmptyFirst(t); }
  }

  lemma Shifted(pending: Bytes, more: Option<Bytes>)
    requires pending != []
    ensures more.Some? ==> (pending + more.value)[0] == pending[0] && (pending + more.value)[1..] == pending[1..] + more.value
  {
  }

  /** Read to the end of the stream. */
  method ReadAll(input: Text) returns (bytes: Option<Bytes>)
    ensures bytes == Decode(input)
  {
    hide Decode, NextBlock;
    var decoder := new Decoder(input);
    var got: Bytes := [];
    EmptyFirst(input);
    hide Decoder.Ahead, Decoder.Pending, Decoder.Valid;
    while true
      invariant decoder.Valid() && fresh(decoder) && fresh(decoder.group)
      invariant match decoder.Ahead() case None => Decode(input) == None case Some(more) => Decode(input) == Some(got + more)
      decreases 5 * |decoder.input| + |decoder.Pending()|
    {
      ghost var ahead := decoder.Ahead();
      var r := decoder.ReadFromDevice();
      if r == Throws { return None; }
      if r == Eof {
        assert got + [] == got;
        return Some(got);
      }
      if ahead.Some? { assert got + ahead.value == got + [r.byte] + ahead.value[1..]; }
      got := got + [r.byte];
    }
  }

  /** Whatever bytes are written, the decoder reads them back from what the encoder has put out. */
  method EncodeAndDecode(bytes: Bytes, padding: bool) returns (text: Text, back: Option<Bytes>)
    ensures text == Encoded(bytes, padding) && back == Some(bytes)
  {
    hide Decode, Encoded, WholeGroups, Remainder;
    var encoder := new Encoder(padding);
    for i := 0 to |bytes|
      invariant encoder.Valid() && fresh(encoder) && fresh(encoder.group) && encoder.doPadding == padding
      invariant encoder.written == bytes[..i] && encoder.sent == []
    {
      encoder.WriteToDevice(bytes[i]);
      assert bytes[..i + 1] == bytes[..i] + [bytes[i]];
    }
    assert bytes[..|bytes|] == bytes;
    encoder.Close();
    text := encoder.out;
    assert text == [] + Encoded(bytes, padding);
    DecodeEncoded(bytes, padding, []);
    DecodeNothing();
    assert Encoded(bytes, padding) + [] == text && bytes + [] == bytes;
    back := ReadAll(text);
  }

  lemma DecodeNothing()
    ensures Decode([]) == Some([])
  {
  }

  /** A last block is accepted exactly with 0, 2, 4, 5 or 7 characters, all of the alphabet or padding. */
  lemma LastBlockLengths(t: Text)
    requires |t| < 8
    ensures Decode(t).Some? <==> AllKnown(t) && (|t| == 0 || |t| == 2 || |t| == 4 || |t| == 5 || |t| == 7)
  {
    hide BytesOf, Filled, Value;
    assert t[..|t|] == t && t[|t|..] == [];
    DecodeNothing();
  }
}
