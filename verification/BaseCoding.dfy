/** What the Base32 and Base64 codecs share: the inverse table and the cutting of bytes into groups. */
module BaseCoding {

  type Byte = b: int | 0 <= b < 256

  type Bytes = seq<Byte>

  /** A character of one byte. */
  type Octet = c: char | c as int < 256 witness 'A'

  type Text = seq<Octet>

  const INVALID: int := 0xFF

  /** An alphabet has distinct characters, and not the padding character. */
  predicate IsAlphabet(alphabet: Text) {
    |alphabet| < INVALID && (forall i :: 0 <= i < |alphabet| ==> alphabet[i] != '=') &&
    forall i, j :: 0 <= i < j < |alphabet| ==> alphabet[i] != alphabet[j]
  }

  /** The value of a character: its place in the alphabet, 0 for padding, 0xFF for anything else. */
  function ValueOf(alphabet: Text, c: Octet): int {
    if c == '=' then 0 else Place(alphabet, c)
  }

  function Place(alphabet: Text, c: Octet): (v: int)
    ensures v == INVALID || (0 <= v < |alphabet| && alphabet[v] == c)
  {
    if alphabet == [] then INVALID
    else if alphabet[|alphabet| - 1] == c then |alphabet| - 1
    else Place(alphabet[..|alphabet| - 1], c)
  }

  /** Looking up a character of the alphabet undoes writing it. */
  lemma {:induction false} ValueOfWritten(alphabet: Text, i: nat)
    requires IsAlphabet(alphabet) && i < |alphabet|
    ensures ValueOf(alphabet, alphabet[i]) == i
  {
    var n := |alphabet| - 1;
    if i < n {
      assert alphabet[..n][i] == alphabet[i];
      ValueOfWritten(alphabet[..n], i);
    }
  }

  /** The characters with a value are those of the alphabet and the padding. */
  lemma {:induction false} KnownIsWritten(alphabet: Text, c: Octet)
    requires |alphabet| < INVALID
    ensures ValueOf(alphabet, c) != INVALID <==> c == '=' || c in alphabet
  {
    if alphabet != [] {
      var n := |alphabet| - 1;
      KnownIsWritten(alphabet[..n], c);
      assert alphabet == alphabet[..n] + [alphabet[n]];
    }
  }

  ghost predicate Places(table: seq<int>, alphabet: Text) {
    |table| == 256 && forall c: Octet :: PlacedIn(table, alphabet, c)
  }

  ghost predicate PlacedIn(table: seq<int>, alphabet: Text, c: Octet)
    requires |table| == 256
  {
    table[c as int] == Place(alphabet, c)
  }

  lemma OneMorePlace(table: seq<int>, alphabet: Text, i: nat)
    requires i < |alphabet| && Places(table, alphabet[..i])
    ensures Places(table[alphabet[i] as int := i], alphabet[..i + 1])
  {
    var next, prefix := table[alphabet[i] as int := i], alphabet[..i + 1];
    PlaceNext(alphabet, i);
    forall c: Octet ensures PlacedIn(next, prefix, c) {
      assert PlacedIn(table, alphabet[..i], c);
      assert c as int == alphabet[i] as int ==> c == alphabet[i];
    }
  }

  /** The constructor's loops over IN_ENCODING. */
  method BuildTable(alphabet: Text) returns (table: array<int>)
    requires IsAlphabet(alphabet)
    ensures fresh(table) && table.Length == 256 && forall c: Octet :: table[c as int] == ValueOf(alphabet, c)
  {
    table := new int[256];
    for i := 0 to 256
      invariant forall k :: 0 <= k < i ==> table[k] == INVALID
    {
      table[i] := INVALID;
    }
    forall c: Octet ensures PlacedIn(table[..], alphabet[..0], c) {
    }
    for i := 0 to |alphabet|
      invariant Places(table[..], alphabet[..i])
    {
      OneMorePlace(table[..], alphabet, i);
      table[alphabet[i] as int] := i;
    }
    assert alphabet[..|alphabet|] == alphabet;
    ghost var t := table[..];
    table['=' as int] := 0;
    forall c: Octet ensures table[c as int] == ValueOf(alphabet, c) {
      assert PlacedIn(t, alphabet, c);
      assert c as int == '=' as int ==> c == '=';
    }
  }

  lemma PlaceNext(alphabet: Text, i: nat)
    requires i < |alphabet|
    ensures forall c: Octet :: Place(alphabet[..i + 1], c) == if c == alphabet[i] then i else Place(alphabet[..i], c)
  {
    forall c: Octet ensures Place(alphabet[..i + 1], c) == if c == alphabet[i] then i else Place(alphabet[..i], c) {
      PlaceStep(alphabet[..i + 1], c);
      assert alphabet[..i + 1][..i] == alphabet[..i];
    }
  }

  lemma PlaceStep(alphabet: Text, c: Octet)
    requires alphabet != []
    ensures var n := |alphabet| - 1; Place(alphabet, c) == if c == alphabet[n] then n else Place(alphabet[..n], c)
  {
  }

  lemma Grouped(a: Text, b: Text, c: Text)
    ensures a + b + c == a + (b + c) && a + [] == a
  {
  }

  // ----- groups -----

  /** What a short group is filled up with. */
  function Zeros(n: nat): (r: Bytes)
    ensures |r| == n && forall i :: 0 <= i < n ==> r[i] == 0
  {
    if n == 0 then [] else [0] + Zeros(n - 1)
  }

  /** The whole groups of n bytes, each encoded. */
  function WholeGroups(s: Bytes, n: nat, encode: Bytes -> Text): Text
    requires n > 0
    decreases |s|
  {
    if |s| < n then [] else encode(s[..n]) + WholeGroups(s[n..], n, encode)
  }

  /** The bytes after the last whole group. */
  function Remainder(s: Bytes, n: nat): (r: Bytes)
    requires n > 0
    ensures |r| < n
    decreases |s|
  {
    if |s| < n then s else Remainder(s[n..], n)
  }

  /** One more byte either completes a group or waits. */
  lemma {:induction false} OneMoreByte(s: Bytes, c: Byte, n: nat, encode: Bytes -> Text)
    requires n > 0
    ensures var r := Remainder(s, n) + [c];
            if |r| == n then WholeGroups(s + [c], n, encode) == WholeGroups(s, n, encode) + encode(r) && Remainder(s + [c], n) == []
            else WholeGroups(s + [c], n, encode) == WholeGroups(s, n, encode) && Remainder(s + [c], n) == r
    decreases |s|
  {
    var t := s + [c];
    if |s| >= n {
      assert t[..n] == s[..n] && t[n..] == s[n..] + [c];
      OneMoreByte(s[n..], c, n, encode);
    } else if |t| == n {
      assert t[..n] == t && t[n..] == [];
    }
  }

  /** Digits read as a number. */
  function Number(base: int, digits: seq<int>): int {
    if digits == [] then 0
    else Number(base, digits[..|digits| - 1]) * base + digits[|digits| - 1]
  }

  lemma NumberStep(base: int, digits: seq<int>, d: int)
    ensures Number(base, digits + [d]) == Number(base, digits) * base + d
  {
    assert (digits + [d])[..|digits|] == digits;
  }

  lemma Number3(base: int, a: int, b: int, c: int)
    ensures Number(base, [a, b, c]) == (a * base + b) * base + c
  {
    assert [] + [a] == [a] && [a] + [b] == [a, b] && [a, b] + [c] == [a, b, c];
    assert Number(base, []) == 0;
    hide Number;
    NumberStep(base, [], a);
    NumberStep(base, [a], b);
    NumberStep(base, [a, b], c);
  }
}
