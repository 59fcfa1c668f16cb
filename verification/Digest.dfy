/** Streaming message digests (Foundation/src/MD5Engine.cpp and MD4Engine.cpp, which differ in `transform` only).
    The 64-byte compression function is a parameter. */
module Digest {

  type byte = b: int | 0 <= b < 0x100
  type word = w: int | 0 <= w < 0x1_0000_0000
  type Bytes = seq<byte>

  datatype State = State(a: word, b: word, c: word, d: word)

  const INITIAL: State := State(0x67452301, 0xefcdab89, 0x98badcfe, 0x10325476)

  type Compression = (State, Bytes) -> State

  // ------------------------------------------------------------------------------------------
  // The digest of a whole message
  // ------------------------------------------------------------------------------------------

  /** The state after all full blocks. */
  function Fold(f: Compression, s: State, m: Bytes): State
    decreases |m|
  {
    if |m| < 64 then s else Fold(f, f(s, m[..64]), m[64..])
  }

  /** The length of the full blocks among n bytes. */
  function Whole(n: nat): (w: nat)
    ensures w <= n < w + 64
  {
    n / 64 * 64
  }

  predicate Aligned(n: nat) {
    Whole(n) == n
  }

  /** The bytes after the last full block. */
  function Tail(m: Bytes): (t: Bytes)
    ensures |t| < 64
  {
    m[Whole(|m|)..]
  }

  function Zeros(n: nat): (z: Bytes)
    ensures |z| == n && forall k :: 0 <= k < n ==> z[k] == 0
  {
    seq(n, _ => 0)
  }

  /** The length in bits modulo 2^64, low-order byte first. */
  function LengthBytes(bytes: nat): Bytes {
    BytesOf(8 * bytes % 0x1_0000_0000_0000_0000)
  }

  function BytesOf(bits: nat): Bytes {
    [bits % 256, bits / 0x100 % 256, bits / 0x1_0000 % 256, bits / 0x100_0000 % 256,
     bits / 0x1_0000_0000 % 256, bits / 0x100_0000_0000 % 256, bits / 0x1_0000_0000_0000 % 256,
     bits / 0x100_0000_0000_0000 % 256]
  }

  /** The zero bytes that, after the byte 0x80, bring a length to 56 modulo 64. */
  function ZeroCount(n: nat): (z: nat)
    ensures z < 64 && (n + 1 + z) % 64 == 56
  {
    if n % 64 < 56 then 55 - n % 64 else 119 - n % 64
  }

  /** Sections 3.1 and 3.2 of RFC 1321: a one bit, zeros up to 56 modulo 64, and the length. */
  function Padded(m: Bytes): (p: Bytes)
    ensures Aligned(|p|)
  {
    m + [0x80] + Zeros(ZeroCount(|m|)) + LengthBytes(|m|)
  }

  function EncodeWord(w: word): (bs: Bytes)
    ensures |bs| == 4
  {
    [w % 256, w / 0x100 % 256, w / 0x1_0000 % 256, w / 0x100_0000]
  }

  function DecodeWord(bs: Bytes): word
    requires |bs| == 4
  {
    bs[0] as int + 0x100 * bs[1] as int + 0x1_0000 * bs[2] as int + 0x100_0000 * bs[3] as int
  }

  function EncodeState(s: State): Bytes {
    EncodeWord(s.a) + EncodeWord(s.b) + EncodeWord(s.c) + EncodeWord(s.d)
  }

  /** Section 3.5 of RFC 1321: the state after the padded message, low-order bytes first. */
  function DigestOf(f: Compression, m: Bytes): Bytes {
    EncodeState(Fold(f, INITIAL, Padded(m)))
  }

  lemma {:induction false} FoldConcat(f: Compression, s: State, a: Bytes, b: Bytes)
    requires Aligned(|a|)
    ensures Fold(f, s, a + b) == Fold(f, Fold(f, s, a), b)
    decreases |a|
  {
    if a == [] {
      assert a + b == b;
    } else {
      assert (a + b)[..64] == a[..64] && (a + b)[64..] == a[64..] + b;
      FoldConcat(f, f(s, a[..64]), a[64..], b);
    }
  }

  /** The tail does not show in the state. */
  lemma FoldDropsTail(f: Compression, s: State, m: Bytes)
    ensures Fold(f, s, m) == Fold(f, s, m[..Whole(|m|)])
  {
    var k := Whole(|m|);
    assert m == m[..k] + m[k..];
    FoldConcat(f, s, m[..k], m[k..]);
  }

  lemma WordRoundTrip(w: word)
    ensures DecodeWord(EncodeWord(w)) == w
  {
    assert w / 0x100 == w / 0x1_0000 * 256 + w / 0x100 % 256;
    assert w / 0x1_0000 == w / 0x100_0000 * 256 + w / 0x1_0000 % 256;
  }

  /** Bytes as a number, the low-order one in front. */
  function LittleEndian(b: Bytes): int {
    if b == [] then 0 else b[0] as int + 256 * LittleEndian(b[1..])
  }

  /** The low-order byte of a word comes first. */
  lemma WordBytes(w: word)
    ensures LittleEndian(EncodeWord(w)) == w
  {
    FourBytes(EncodeWord(w));
    assert w / 0x100 == w / 0x1_0000 * 256 + w / 0x100 % 256;
    assert w / 0x1_0000 == w / 0x100_0000 * 256 + w / 0x1_0000 % 256;
  }

  lemma FourBytes(b: Bytes)
    requires |b| == 4
    ensures LittleEndian(b) == b[0] as int + 0x100 * b[1] as int + 0x1_0000 * b[2] as int + 0x100_0000 * b[3] as int
  {
    var b1, b2, b3 := b[1..], b[2..], b[3..];
    assert b1[1..] == b2 && b2[1..] == b3 && b3[1..] == [];
    assert LittleEndian(b3) == b[3] as int && LittleEndian(b2) == b[2] as int + 256 * LittleEndian(b3);
    assert LittleEndian(b1) == b[1] as int + 256 * LittleEndian(b2);
  }

  /** Section 3.3 of RFC 1321 gives the initial words byte by byte, low-order bytes first. */
  lemma InitialBytes()
    ensures EncodeState(INITIAL) == [0x01, 0x23, 0x45, 0x67, 0x89, 0xab, 0xcd, 0xef, 0xfe, 0xdc, 0xba, 0x98, 0x76, 0x54, 0x32, 0x10]
  {
  }

  /** The length field is the number of bits modulo 2^64, the low-order word first. */
  lemma LengthField(bytes: nat)
    ensures LittleEndian(LengthBytes(bytes)) == 8 * bytes % 0x1_0000_0000_0000_0000 && |LengthBytes(bytes)| == 8
  {
    var bits: nat := 8 * bytes % 0x1_0000_0000_0000_0000;
    var low: word, high: word := bits % TWO32, bits / TWO32;
    TwoWordBytes(low, high);
    WordBytes(low);
    WordBytes(high);
    LittleEndianConcat(EncodeWord(low), EncodeWord(high));
    hide EncodeWord, LittleEndian, BytesOf;
  }

  lemma LittleEndianConcat(a: Bytes, b: Bytes)
    requires |a| == 4
    ensures LittleEndian(a + b) == LittleEndian(a) + TWO32 * LittleEndian(b)
  {
    assert a == [a[0], a[1], a[2], a[3]];
    var a1, a2, a3 := a[1..], a[2..], a[3..];
    assert (a + b)[1..] == a1 + b && (a1 + b)[1..] == a2 + b && (a2 + b)[1..] == a3 + b && (a3 + b)[1..] == b;
    assert a1[1..] == a2 && a2[1..] == a3 && a3[1..] == [];
    assert LittleEndian(a3 + b) == a[3] as int + 256 * LittleEndian(b) && LittleEndian(a3) == a[3] as int;
    assert LittleEndian(a2 + b) == a[2] as int + 256 * LittleEndian(a3 + b) && LittleEndian(a2) == a[2] as int + 256 * LittleEndian(a3);
    assert LittleEndian(a1 + b) == a[1] as int + 256 * LittleEndian(a2 + b) && LittleEndian(a1) == a[1] as int + 256 * LittleEndian(a2);
  }

  /** Sections 3.1 and 3.2 of RFC 1321: the message, a byte 0x80, fewer than 64 zeros, and the length, in whole blocks. */
  lemma PaddedShape(m: Bytes)
    ensures var p := Padded(m);
            |p| % 64 == 0 && |m| + 9 <= |p| < |m| + 73 && p[..|m|] == m && p[|m|] == 0x80 &&
            (forall i :: |m| < i < |p| - 8 ==> p[i] == 0) && p[|p| - 8..] == LengthBytes(|m|)
  {
    var zeros := Zeros(ZeroCount(|m|));
    assert Padded(m) == m + ([0x80] + zeros + LengthBytes(|m|));
    assert |Padded(m)| == |m| + 9 + |zeros|;
  }

  /** A message that fits one block with its padding: the digest is the compression of that block from the initial state. */
  lemma ShortDigest(f: Compression, m: Bytes)
    requires |m| < 56
    ensures DigestOf(f, m) ==
            EncodeState(f(State(0x67452301, 0xefcdab89, 0x98badcfe, 0x10325476), m + [0x80] + Zeros(55 - |m|) + LengthBytes(|m|)))
  {
    var p := Padded(m);
    assert p == m + [0x80] + Zeros(55 - |m|) + LengthBytes(|m|) && |p| == 64;
    assert p[..64] == p && p[64..] == [];
    assert Fold(f, INITIAL, p) == Fold(f, f(INITIAL, p), []) == f(INITIAL, p);
  }

  // ------------------------------------------------------------------------------------------
  // The bit counter
  // ------------------------------------------------------------------------------------------

  const TWO32: int := 0x1_0000_0000

  /** Adding an input to the two counter words, with the truncations of the source. */
  function AddBits(count0: word, count1: word, inputLen: nat): (word, word) {
    var shifted := inputLen % TWO32 * 8 % TWO32;
    var low := (count0 + shifted) % TWO32;
    var carry := if low < shifted then 1 else 0;
    (low, ((count1 + carry) % TWO32 + inputLen % TWO32 / 0x2000_0000) % TWO32)
  }

  function BitCount(count0: word, count1: word): int {
    count0 + TWO32 * count1
  }

  lemma LowWord(count0: word, inputLen: nat)
    requires inputLen < TWO32
    ensures var shifted := inputLen * 8 % TWO32;
            var low := (count0 + shifted) % TWO32;
            count0 + 8 * inputLen == low + TWO32 * ((if low < shifted then 1 else 0) + inputLen / 0x2000_0000)
  {
    var shifted := inputLen * 8 % TWO32;
    assert 8 * inputLen == shifted + TWO32 * (inputLen / 0x2000_0000);
  }

  lemma TwoWords(low: word, high: int)
    ensures low + TWO32 * (high % TWO32) == (low + TWO32 * high) % 0x1_0000_0000_0000_0000
  {
    assert high == TWO32 * (high / TWO32) + high % TWO32;
  }

  /** The counter takes the length modulo 2^32. */
  lemma CounterAdds(count0: word, count1: word, inputLen: nat)
    ensures var (c0, c1) := AddBits(count0, count1, inputLen);
            BitCount(c0, c1) == (BitCount(count0, count1) + 8 * (inputLen % TWO32)) % 0x1_0000_0000_0000_0000
  {
    var n := inputLen % TWO32;
    var (c0, c1) := AddBits(count0, count1, inputLen);
    LowWord(count0, n);
    var high := count1 + (if c0 < n * 8 % TWO32 then 1 else 0) + n / 0x2000_0000;
    TwoWords(c0, high);
    ModuloTwice(count1 + (if c0 < n * 8 % TWO32 then 1 else 0), n / 0x2000_0000);
  }

  lemma ModuloTwice(x: int, y: int)
    ensures (x % TWO32 + y) % TWO32 == (x + y) % TWO32
  {
    assert (x % TWO32 + y) / TWO32 == (x + y) / TWO32 - x / TWO32;
  }

  /** The counter words hold the number of bits modulo 2^64 after any input shorter than 2^32 bytes, and, among
      inputs below 2^61 bytes, only then. */
  lemma CounterIsExact(count0: word, count1: word, inputLen: nat)
    requires inputLen < 0x2000_0000_0000_0000
    ensures var (c0, c1) := AddBits(count0, count1, inputLen);
            BitCount(c0, c1) == (BitCount(count0, count1) + 8 * inputLen) % 0x1_0000_0000_0000_0000 <==> inputLen < TWO32
  {
    hide AddBits, BitCount;
    CounterAdds(count0, count1, inputLen);
    var q := inputLen / TWO32;
    assert 0 <= 8 * TWO32 * q < 0x1_0000_0000_0000_0000;
    ShiftModulo(BitCount(count0, count1) + 8 * (inputLen % TWO32), 8 * TWO32 * q);
  }

  lemma CounterFollows(count0: word, count1: word, inputLen: nat, before: nat)
    requires inputLen < TWO32 && BitCount(count0, count1) == 8 * before % 0x1_0000_0000_0000_0000
    ensures var (c0, c1) := AddBits(count0, count1, inputLen);
            BitCount(c0, c1) == 8 * (before + inputLen) % 0x1_0000_0000_0000_0000
  {
    hide AddBits, BitCount;
    CounterAdds(count0, count1, inputLen);
    assert inputLen % TWO32 == inputLen;
    ModuloAbsorbs(8 * before, 8 * inputLen);
    assert 8 * before + 8 * inputLen == 8 * (before + inputLen);
  }

  lemma ShiftModulo(x: int, d: int)
    requires 0 <= d < 0x1_0000_0000_0000_0000
    ensures x % 0x1_0000_0000_0000_0000 == (x + d) % 0x1_0000_0000_0000_0000 <==> d == 0
  {
  }

  // ------------------------------------------------------------------------------------------
  // Lemmas for the engine
  // ------------------------------------------------------------------------------------------

  lemma BlockFold(f: Compression, s: State, a: Bytes, block: Bytes)
    requires Aligned(|a|) && |block| == 64
    ensures Fold(f, s, a + block) == f(Fold(f, s, a), block)
  {
    FoldConcat(f, s, a, block);
    assert block[..64] == block && block[64..] == [];
  }

  lemma AlignedSums(a: nat, b: nat)
    requires Aligned(a)
    ensures b < 64 ==> Whole(a + b) == a
    ensures Aligned(a + 64) && Aligned(Whole(b))
  {
  }

  lemma ShortTail(f: Compression, m: Bytes, part: Bytes)
    requires Aligned(|m|) && |part| < 64
    ensures Fold(f, INITIAL, m + part) == Fold(f, INITIAL, m) && Tail(m + part) == part
  {
    FoldConcat(f, INITIAL, m, part);
    TailOfConcat(m, part);
  }

  lemma TailOfConcat(m: Bytes, part: Bytes)
    requires Aligned(|m|) && |part| < 64
    ensures Tail(m + part) == part
  {
    AlignedSums(|m|, |part|);
    assert (m + part)[|m|..] == part;
  }

  /** Completing a tail to a block. */
  lemma CompleteTail(f: Compression, full: Bytes, tail: Bytes, part: Bytes)
    requires Aligned(|full|) && |tail| < 64 && |part| == 64 - |tail|
    ensures Fold(f, INITIAL, full + tail + part) == f(Fold(f, INITIAL, full + tail), tail + part)
    ensures Aligned(|full + tail + part|)
  {
    AlignedSums(|full|, 0);
    assert full + tail + part == full + (tail + part);
    FoldConcat(f, INITIAL, full, tail);
    BlockFold(f, INITIAL, full, tail + part);
  }

  lemma LongerTail(f: Compression, full: Bytes, tail: Bytes, part: Bytes)
    requires Aligned(|full|) && |tail| + |part| < 64
    ensures Fold(f, INITIAL, full + tail + part) == Fold(f, INITIAL, full + tail)
    ensures Tail(full + tail + part) == tail + part
  {
    assert full + tail + part == full + (tail + part);
    ShortTail(f, full, tail);
    ShortTail(f, full, tail + part);
  }

  lemma AfterBlocks(f: Compression, m: Bytes, input: Bytes, partLen: nat, i: nat)
    requires partLen <= i <= |input| && |input| - i < 64 && Aligned(|m + input[..partLen] + input[partLen..i]|)
    ensures Fold(f, INITIAL, m + input) == Fold(f, INITIAL, m + input[..partLen] + input[partLen..i])
    ensures Tail(m + input) == input[i..]
  {
    var blocks := m + input[..partLen] + input[partLen..i];
    assert m + input == blocks + input[i..];
    ShortTail(f, blocks, input[i..]);
  }

  lemma SplitMessage(m: Bytes)
    ensures Aligned(Whole(|m|)) && m == m[..Whole(|m|)] + Tail(m)
  {
  }

  // ------------------------------------------------------------------------------------------
  // The 32-bit index of the block loop
  // ------------------------------------------------------------------------------------------

  /** The bytes waiting in the buffer and the input come to less than 2^32. */
  predicate FitsLoop(index: nat, inputLen: nat) {
    index + inputLen < TWO32
  }

  /** The guard of the block loop. */
  predicate LoopGuard(i: word, inputLen: nat) {
    (i + 63) % TWO32 < inputLen
  }

  /** The loop index after some passes. */
  function AfterPasses(i: word, passes: nat): word
    decreases passes
  {
    if passes == 0 then i else AfterPasses((i + 64) % TWO32, passes - 1)
  }

  /** The loop entered with i reaches a false guard. */
  ghost predicate LoopEnds(i: word, inputLen: nat) {
    exists passes: nat :: !LoopGuard(AfterPasses(i, passes), inputLen)
  }

  /** Whatever the number of passes, the loop index lies at a block boundary of the message. */
  lemma {:induction false} PassesKeepBoundary(i: word, passes: nat, index: nat)
    requires (i + index) % 64 == 0
    ensures (AfterPasses(i, passes) + index) % 64 == 0
    decreases passes
  {
    if passes > 0 {
      var wraps := (i + 64) / TWO32;
      assert (i + 64) % TWO32 + index == i + index + 64 * (1 - 0x400_0000 * wraps);
      PassesKeepBoundary((i + 64) % TWO32, passes - 1, index);
    }
  }

  lemma {:induction false} PassesWithoutWrap(i: word, passes: nat)
    requires i + 64 * passes < TWO32
    ensures AfterPasses(i, passes) == i + 64 * passes
    decreases passes
  {
    if passes > 0 { PassesWithoutWrap(i + 64, passes - 1); }
  }

  /** At a block boundary the guard decides whether a whole block is left, provided the input fits; if it does not, the guard
      is true at every boundary. */
  lemma GuardAtBoundary(i: word, index: nat, inputLen: nat)
    requires index < 64 && (i + index) % 64 == 0 && inputLen + index >= 64
    ensures FitsLoop(index, inputLen) && i <= inputLen ==> (LoopGuard(i, inputLen) <==> i + 64 <= inputLen)
    ensures !FitsLoop(index, inputLen) ==> LoopGuard(i, inputLen)
  {
    var blocks := (i + index) / 64;
    assert i + 63 == 64 * blocks + 63 - index;
  }

  /** The block loop, entered behind the completed buffer, ends if and only if buffered bytes and input together are shorter
      than 2^32; otherwise its index goes round for ever. */
  lemma LoopEndsExactly(index: nat, inputLen: nat)
    requires index < 64 && inputLen >= 64 - index
    ensures LoopEnds(64 - index, inputLen) <==> FitsLoop(index, inputLen)
  {
    var start: word := 64 - index;
    if FitsLoop(index, inputLen) {
      var passes := (inputLen - start) / 64;
      PassesWithoutWrap(start, passes);
      PassesKeepBoundary(start, passes, index);
      GuardAtBoundary(AfterPasses(start, passes), index, inputLen);
      assert !LoopGuard(AfterPasses(start, passes), inputLen);
    } else {
      forall passes: nat ensures LoopGuard(AfterPasses(start, passes), inputLen) {
        PassesKeepBoundary(start, passes, index);
        GuardAtBoundary(AfterPasses(start, passes), index, inputLen);
      }
    }
  }

  lemma ModuloAbsorbs(x: int, y: int)
    ensures (x % 0x1_0000_0000_0000_0000 + y) % 0x1_0000_0000_0000_0000 == (x + y) % 0x1_0000_0000_0000_0000
  {
    var q := x / 0x1_0000_0000_0000_0000;
    assert (x % 0x1_0000_0000_0000_0000 + y) / 0x1_0000_0000_0000_0000 == (x + y) / 0x1_0000_0000_0000_0000 - q;
  }

  lemma BufferIndex(count0: word, count1: word, n: nat)
    requires BitCount(count0, count1) == 8 * n % 0x1_0000_0000_0000_0000
    ensures count0 / 8 % 64 == n - Whole(n)
  {
    var q := 8 * n / 0x1_0000_0000_0000_0000;
    var k := 0x2000_0000 * count1 + 0x2000_0000_0000_0000 * q;
    assert count0 == 8 * (n - k);
    var l := 0x80_0000 * count1 + 0x80_0000_0000_0000 * q;
    assert count0 / 8 == n - 64 * l;
    SameRemainder(count0 / 8, n, l);
  }

  lemma SameRemainder(x: nat, n: nat, l: int)
    requires x == n - 64 * l
    ensures x % 64 == n - Whole(n)
  {
    assert n / 64 == x / 64 + l;
  }

  lemma LengthIsCount(count0: word, count1: word, n: nat)
    requires BitCount(count0, count1) == 8 * n % 0x1_0000_0000_0000_0000
    ensures LengthBytes(n) == EncodeWord(count0) + EncodeWord(count1)
  {
    TwoWordBytes(count0, count1);
  }

  lemma TwoWordBytes(low: word, high: word)
    ensures BytesOf(low + TWO32 * high) == EncodeWord(low) + EncodeWord(high)
  {
    LowBytes(low, high);
    HighBytes(low, high);
  }

  lemma SameByte(x: int, h: int)
    ensures (x + 256 * h) % 256 == x % 256
  {
    assert (x + 256 * h) / 256 == x / 256 + h;
  }

  lemma LowBytes(low: word, high: word)
    ensures var bits := low + TWO32 * high;
            bits % 256 == low % 256 && bits / 0x100 % 256 == low / 0x100 % 256 &&
            bits / 0x1_0000 % 256 == low / 0x1_0000 % 256 && bits / 0x100_0000 % 256 == low / 0x100_0000
  {
    SameByte(low, 0x100_0000 * high);
    SameByte(low / 0x100, 0x1_0000 * high);
    SameByte(low / 0x1_0000, 0x100 * high);
    SameByte(low / 0x100_0000, high);
    ShiftedWords(low, high);
  }

  lemma ShiftedWords(low: word, high: word)
    ensures var bits := low + TWO32 * high;
            bits / 0x100 == low / 0x100 + 256 * (0x1_0000 * high) &&
            bits / 0x1_0000 == low / 0x1_0000 + 256 * (0x100 * high) &&
            bits / 0x100_0000 == low / 0x100_0000 + 256 * high
  {
  }

  lemma HighBytes(low: word, high: word)
    ensures var bits := low + TWO32 * high;
            bits / TWO32 == high && bits / 0x100_0000_0000 == high / 0x100 &&
            bits / 0x1_0000_0000_0000 == high / 0x1_0000 && bits / 0x100_0000_0000_0000 == high / 0x100_0000
  {
  }

  function EncodeWords(ws: seq<word>): Bytes {
    if ws == [] then [] else EncodeWords(ws[..|ws| - 1]) + EncodeWord(ws[|ws| - 1])
  }

  const PADDING: Bytes := [0x80] + Zeros(63)

  function Concat(chunks: seq<Bytes>): Bytes {
    if chunks == [] then [] else Concat(chunks[..|chunks| - 1]) + chunks[|chunks| - 1]
  }

  // ------------------------------------------------------------------------------------------
  // The engine
  // ------------------------------------------------------------------------------------------

  class Engine {
    const transform: Compression
    var state: State
    var count0: word
    var count1: word
    const buffer: array<byte>
    /** What has been fed in since the last reset. */
    ghost var message: Bytes

    ghost predicate Valid()
      reads this, buffer
    {
      buffer.Length == 64
      && state == Fold(transform, INITIAL, message)
      && BitCount(count0, count1) == 8 * |message| % 0x1_0000_0000_0000_0000
      && buffer[..|Tail(message)|] == Tail(message)
    }

    constructor (transform: Compression)
      ensures Valid() && fresh(buffer) && this.transform == transform && message == []
    {
      this.transform := transform;
      buffer := new byte[64];
      state, count0, count1, message := INITIAL, 0, 0, [];
    }

    method Reset()
      requires buffer.Length == 64
      modifies this, buffer
      ensures Valid() && message == []
      ensures state == INITIAL && count0 == 0 && count1 == 0 && forall k :: 0 <= k < 64 ==> buffer[k] == 0
    {
      forall k | 0 <= k < 64 { buffer[k] := 0; }
      state, count0, count1, message := INITIAL, 0, 0, [];
    }

    /** memcpy to &buffer[index] */
    method CopyToBuffer(index: nat, part: Bytes)
      requires index + |part| <= buffer.Length
      modifies buffer
      ensures buffer[..index + |part|] == old(buffer[..index]) + part
    {
      forall k | 0 <= k < |part| { buffer[index + k] := part[k]; }
    }

    method AddLength(inputLen: nat, ghost before: nat)
      requires inputLen < TWO32 && BitCount(count0, count1) == 8 * before % 0x1_0000_0000_0000_0000
      modifies `count0, `count1
      ensures BitCount(count0, count1) == 8 * (before + inputLen) % 0x1_0000_0000_0000_0000
    {
      CounterFollows(count0, count1, inputLen, before);
      var count := AddBits(count0, count1, inputLen);
      count0, count1 := count.0, count.1;
    }

    /** The block loop, entered at a block boundary of the message. */
    method TransformBlocks(input: Bytes, start: nat, ghost before: Bytes) returns (i: nat)
      requires 1 <= start <= 64 && start <= |input| && FitsLoop(64 - start, |input|)
      requires Aligned(|before|) && state == Fold(transform, INITIAL, before)
      modifies `state
      ensures start <= i <= |input| && Aligned(|before + input[start..i]|) && |input| - i < 64
      ensures state == Fold(transform, INITIAL, before + input[start..i])
    {
      i := start;
      ghost var done, blocks := before, 0;
      assert before + input[start..i] == before;
      GuardAtBoundary(i, 64 - start, |input|);
      while (i + 63) % TWO32 < |input|
        invariant i == start + 64 * blocks && i <= |input|
        invariant done == before + input[start..i] && Aligned(|done|)
        invariant LoopGuard(i, |input|) <==> i + 64 <= |input|
        invariant state == Fold(transform, INITIAL, done)
        decreases |input| - i
      {
        var block := input[i..i + 64];
        BlockFold(transform, INITIAL, done, block);
        AlignedSums(|done|, 0);
        assert before + input[start..i + 64] == done + block;
        state := transform(state, block);
        i := (i + 64) % TWO32;
        done, blocks := done + block, blocks + 1;
        GuardAtBoundary(i, 64 - start, |input|);
      }
    }

    /** Fill the buffer and transform it. */
    method CompleteBuffer(index: nat, part: Bytes)
      requires buffer.Length == 64 && state == Fold(transform, INITIAL, message)
      requires index == |Tail(message)| && buffer[..index] == Tail(message) && |part| == 64 - index
      modifies `state, buffer
      ensures state == Fold(transform, INITIAL, message + part) && Aligned(|message + part|)
    {
      SplitMessage(message);
      CompleteTail(transform, message[..Whole(|message|)], Tail(message), part);
      CopyToBuffer(index, part);
      assert buffer[..] == buffer[..64];
      state := transform(state, buffer[..]);
    }

    method Update(input: Bytes)
      requires Valid() && FitsLoop(|Tail(message)|, |input|)
      modifies this, buffer
      ensures Valid() && message == old(message) + input
    {
      SplitMessage(message);
      BufferIndex(count0, count1, |message|);
      var index := count0 / 8 % 64;
      AddLength(|input|, |message|);
      var partLen := 64 - index;
      var i := 0;
      if |input| >= partLen {
        CompleteBuffer(index, input[..partLen]);
        i := TransformBlocks(input, partLen, message + input[..partLen]);
        AfterBlocks(transform, message, input, partLen, i);
        index := 0;
        assert buffer[..0] + input[i..] == input[i..];
      } else {
        LongerTail(transform, message[..Whole(|message|)], Tail(message), input);
        assert input[0..] == input;
      }
      BufferRemaining(index, input[i..], message + input);
    }

    /** The last step of updateImpl: keep what does not fill a block. */
    method BufferRemaining(index: nat, rest: Bytes, ghost m: Bytes)
      requires buffer.Length == 64 && index + |rest| < 64 && buffer[..index] + rest == Tail(m)
      requires state == Fold(transform, INITIAL, m) && BitCount(count0, count1) == 8 * |m| % 0x1_0000_0000_0000_0000
      modifies `message, buffer
      ensures Valid() && message == m
    {
      CopyToBuffer(index, rest);
      message := m;
    }

    /** encode: the low-order byte of each word first. */
    static method Encode(input: seq<word>) returns (output: Bytes)
      ensures output == EncodeWords(input)
    {
      output := [];
      for i := 0 to |input|
        invariant output == EncodeWords(input[..i])
      {
        assert input[..i + 1][..i] == input[..i];
        output := output + [input[i] % 256, input[i] / 0x100 % 256, input[i] / 0x1_0000 % 256, input[i] / 0x100_0000];
      }
      assert input[..|input|] == input;
    }

    /** The digest of what has been fed in; the engine is then as good as new. */
    method GetDigest() returns (digest: Bytes)
      requires Valid()
      modifies this, buffer
      ensures digest == DigestOf(transform, old(message)) && |digest| == 16
      ensures Valid() && message == [] && state == INITIAL
    {
      hide Fold, BitCount, LengthBytes, EncodeWord;
      ghost var m := message;
      LengthIsCount(count0, count1, |m|);
      BufferIndex(count0, count1, |m|);
      var bits := Encode([count0, count1]);
      TwoWordsEncoded(count0, count1);
      var index := count0 / 8 % 64;
      var padLen := if index < 56 then 56 - index else 120 - index;
      PaddingPrefix(padLen);
      Update(PADDING[..padLen]);
      Update(bits);
      assert message == Padded(m);
      digest := Encode([state.a, state.b, state.c, state.d]);
      FourWordsEncoded(state);
      Reset();
    }
  }

  lemma TwoWordsEncoded(a: word, b: word)
    ensures EncodeWords([a, b]) == EncodeWord(a) + EncodeWord(b)
  {
    var ws := [a, b];
    assert ws[..1] == [a] && ws[..1][..0] == [];
    assert EncodeWords(ws[..1]) == EncodeWord(a);
  }

  lemma FourWordsEncoded(s: State)
    ensures EncodeWords([s.a, s.b, s.c, s.d]) == EncodeState(s)
  {
    var ws := [s.a, s.b, s.c, s.d];
    assert ws[..3] == [s.a, s.b, s.c] && ws[..3][..2] == [s.a, s.b];
    TwoWordsEncoded(s.a, s.b);
  }

  lemma PaddingPrefix(padLen: nat)
    requires 1 <= padLen <= 64
    ensures |PADDING| == 64 && PADDING[..padLen] == [0x80] + Zeros(padLen - 1)
  {
  }

  /** Feeding a message in pieces and asking for the digest: only the concatenation matters. */
  method DigestOfChunks(transform: Compression, chunks: seq<Bytes>) returns (digest: Bytes)
    requires forall k :: 0 <= k < |chunks| ==> FitsLoop(|Tail(Concat(chunks[..k]))|, |chunks[k]|)
    ensures digest == DigestOf(transform, Concat(chunks))
  {
    var engine := new Engine(transform);
    for i := 0 to |chunks|
      invariant engine.Valid() && fresh(engine) && fresh(engine.buffer) && engine.transform == transform
      invariant engine.message == Concat(chunks[..i])
    {
      engine.Update(chunks[i]);
      assert chunks[..i + 1][..i] == chunks[..i];
    }
    assert chunks[..|chunks|] == chunks;
    digest := engine.GetDigest();
  }
}
