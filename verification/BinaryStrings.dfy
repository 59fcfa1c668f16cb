/** Integers in groups of seven bits and strings with their length in front (Foundation/src/BinaryWriter.cpp, BinaryReader.cpp). */
module BinaryStrings {

  type Byte = b: int | 0 <= b < 256

  type Bytes = seq<Byte>

  /** 2 to the power of a word's width: 32 or 64 bits. */
  const WORD32: nat := 0x1_0000_0000

  const WORD64: nat := 0x1_0000_0000_0000_0000

  /** Seven bits at a time, lowest first; all but the last with the high bit set. */
  function Encoded(value: nat): Bytes {
    if value < 128 then [value] else [value % 128 + 128] + Encoded(value / 128)
  }

  /** The number read, and what is left; past the end of the stream the reader sees a zero. */
  function Decoded(s: Bytes): (r: (nat, Bytes))
    ensures |r.1| <= |s|
  {
    if s == [] then (0, [])
    else if s[0] < 128 then (s[0], s[1..])
    else
      var (more, rest) := Decoded(s[1..]);
      (s[0] - 128 + 128 * more, rest)
  }

  /** Every number is read back, whatever follows it. */
  lemma {:induction false} DecodedBack(value: nat, rest: Bytes)
    ensures Decoded(Encoded(value) + rest) == (value, rest)
  {
    var s := Encoded(value) + rest;
    if value < 128 {
      assert s[1..] == rest;
    } else {
      assert s[1..] == Encoded(value / 128) + rest;
      DecodedBack(value / 128, rest);
    }
  }

  /** The number whose groups of seven bits, lowest first, are in the bytes. */
  function Groups(s: Bytes): nat {
    if s == [] then 0 else s[0] % 128 + 128 * Groups(s[1..])
  }

  /** A number is written in the bytes that hold its groups, have the high bit set on all but the last, and are no more than needed. */
  lemma {:induction false} EncodedExactly(s: Bytes, value: nat)
    ensures s == Encoded(value) <==>
            s != [] && Groups(s) == value && s[|s| - 1] < 128 && (forall i :: 0 <= i < |s| - 1 ==> s[i] >= 128) &&
            (|s| > 1 ==> s[|s| - 1] > 0)
    decreases |s|
  {
    if |s| > 1 {
      EncodedExactly(s[1..], value / 128);
      LastGroup(s[1..]);
    }
  }

  lemma {:induction false} LastGroup(s: Bytes)
    ensures s != [] && s[|s| - 1] % 128 > 0 ==> Groups(s) > 0
  {
    if |s| > 1 { LastGroup(s[1..]); }
  }

  /** Sums of words may be cut to the word at any time. */
  lemma Truncates(total: nat, x: nat, word: nat)
    requires word == WORD32 || word == WORD64
    ensures (total % word + x) % word == (total + x) % word
  {
    if word == WORD32 {
      assert total == total / WORD32 * WORD32 + total % WORD32;
      assert (total / WORD32 * WORD32 + (total % WORD32 + x)) % WORD32 == (total % WORD32 + x) % WORD32;
    } else {
      assert total == total / WORD64 * WORD64 + total % WORD64;
      assert (total / WORD64 * WORD64 + (total % WORD64 + x)) % WORD64 == (total % WORD64 + x) % WORD64;
    }
  }

  function Placed(place: nat, x: nat): nat { place * x }

  lemma PlaceStep(place: nat, low: nat, more: nat)
    ensures Placed(place, low + 128 * more) == Placed(place, low) + Placed(place * 128, more)
  {
    assert place * (128 * more) == place * 128 * more;
    assert place * (low + 128 * more) == place * low + place * (128 * more);
  }

  lemma PlaceEnds(place: nat, x: nat)
    ensures Placed(place, 0) == 0 && Placed(1, x) == x
  {
  }

  class Writer {
    var out: Bytes

    constructor ()
      ensures out == []
    {
      out := [];
    }

    /** write7BitEncoded */
    method Write7BitEncoded(value: nat)
      modifies this
      ensures out == old(out) + Encoded(value)
    {
      var v := value;
      while v >= 128
        invariant out + Encoded(v) == old(out) + Encoded(value)
      {
        assert out + ([v % 128 + 128] + Encoded(v / 128)) == out + [v % 128 + 128] + Encoded(v / 128);
        out := out + [v % 128 + 128];
        v := v / 128;
      }
      out := out + [v];
    }

    /** operator << for a string: the length is cut to 32 bits, and no more than that is written. */
    method WriteString(value: Bytes)
      modifies this
      ensures var length := |value| % WORD32; out == old(out) + Encoded(length) + value[..length]
    {
      var length := |value| % WORD32;
      Write7BitEncoded(length);
      out := out + value[..length];
    }
  }

  class Reader {
    var input: Bytes

    constructor (input: Bytes)
      ensures this.input == input
    {
      this.input := input;
    }

    /** read7BitEncoded, into a word of 32 or 64 bits. */
    method Read7BitEncoded(word: nat) returns (value: nat)
      requires word == WORD32 || word == WORD64
      modifies this
      ensures value == Decoded(old(input)).0 % word && input == Decoded(old(input)).1
    {
      hide Placed;
      ghost var all := Decoded(input);
      ghost var total: nat := 0;
      PlaceEnds(1, all.0);
      var place: nat, more := 1, true;
      value := 0;
      while more
        invariant value == total % word
        invariant if more then all.1 == Decoded(input).1 && all.0 == total + Placed(place, Decoded(input).0)
                  else all == (total, input)
        decreases more, |input|
      {
        var c: Byte := 0;
        PlaceEnds(place, 0);
        if input != [] {
          PlaceStep(place, input[0] % 128, Decoded(input[1..]).0);
          c, input := input[0], input[1..];
        }
        var x: nat := Placed(place, c % 128);
        Truncates(total, x, word);
        value := (value + x) % word;
        total := total + x;
        place := place * 128;
        more := c >= 128;
      }
    }

    /** operator >> for a string: as many bytes as announced, or as there are. */
    method ReadString() returns (value: Bytes)
      modifies this
      ensures var (length, rest) := Decoded(old(input));
              var n := Least(length % WORD32, |rest|);
              value == rest[..n] && input == rest[n..]
    {
      var size := Read7BitEncoded(WORD32);
      value := [];
      ghost var rest, length := input, size;
      while size > 0 && input != []
        invariant size >= 0 && |value| <= |rest| && value == rest[..|value|] && input == rest[|value|..] && size + |value| == length
        decreases size
      {
        value, input := value + [input[0]], input[1..];
        size := size - 1;
      }
      assert |input| == |rest| - |value|;
      assert |value| == Least(length, |rest|);
    }
  }

  function Least(a: nat, b: nat): nat { if a < b then a else b }

  /** A string comes back, and the stream stands behind it, exactly when its length fits 32 bits. */
  method WriteAndRead(value: Bytes, rest: Bytes) returns (back: Bytes, left: Bytes)
    ensures back == value && left == rest <==> |value| < WORD32
  {
    var writer := new Writer();
    writer.WriteString(value);
    var length := |value| % WORD32;
    DecodedBack(length, value[..length] + rest);
    assert writer.out + rest == Encoded(length) + (value[..length] + rest);
    var reader := new Reader(writer.out + rest);
    back := reader.ReadString();
    left := reader.input;
    assert (value[..length] + rest)[..length] == value[..length] && (value[..length] + rest)[length..] == rest;
    assert |value| < WORD32 ==> value[..length] == value;
    assert |back| < WORD32;
  }
}
