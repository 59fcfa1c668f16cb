/** Block-wise RSA over streams (Crypto/src/RSACipherImpl.cpp and CryptoStream.cpp).
    The RSA primitive is a parameter; a stream is the sequence of bytes it still holds. */
module CryptoStream {

  type byte = b: int | 0 <= b < 0x100
  type Bytes = seq<byte>

  /** RSA_public_encrypt or RSA_private_decrypt on one piece. */
  type Primitive = Bytes -> Bytes

  // ------------------------------------------------------------------------------------------
  // The meaning of the two transforms
  // ------------------------------------------------------------------------------------------

  /** The primitive applied to consecutive pieces of size n, the last one having 1 to n bytes. */
  function Chunked(f: Primitive, n: nat, m: Bytes): Bytes
    requires n > 0
    decreases |m|
  {
    if m == [] then [] else if |m| <= n then f(m) else f(m[..n]) + Chunked(f, n, m[n..])
  }

  /** The padding overhead subtracted by maxDataSize. */
  datatype Padding = Pkcs1 | Sslv23 | Pkcs1Oaep | NoPadding

  function MaxDataSize(padding: Padding, rsaSize: int): int {
    match padding
    case Pkcs1 => rsaSize - 11
    case Sslv23 => rsaSize - 11
    case Pkcs1Oaep => rsaSize - 41
    case NoPadding => rsaSize
  }

  /** The longest message of RFC 8017: section 7.2.1 puts 3 bytes and at least 8 of padding around it, section 7.1.1 two hashes (of 20
      bytes with SHA-1) and 2 bytes. */
  function LongestMessage(padding: Padding, rsaSize: int): int {
    match padding
    case Pkcs1 => rsaSize - 3 - 8
    case Sslv23 => rsaSize - 3 - 8
    case Pkcs1Oaep => rsaSize - 2 * 20 - 2
    case NoPadding => rsaSize
  }

  /** Full pieces are the longest messages there are, except with OAEP, where they are one byte too long. */
  lemma PiecesAreLongest(padding: Padding, rsaSize: int)
    ensures MaxDataSize(padding, rsaSize) == LongestMessage(padding, rsaSize) <==> padding != Pkcs1Oaep
    ensures MaxDataSize(Pkcs1Oaep, rsaSize) == LongestMessage(Pkcs1Oaep, rsaSize) + 1
    ensures MaxDataSize(padding, rsaSize) <= rsaSize
  {
  }

  /** On pieces up to size n the second primitive undoes the first, whose results all have the size of the key. */
  ghost predicate Inverse(encrypt: Primitive, decrypt: Primitive, n: nat, rsaSize: nat) {
    forall p: Bytes :: 1 <= |p| <= n ==> |encrypt(p)| == rsaSize && decrypt(encrypt(p)) == p
  }

  /** Decrypting, piece by piece of the key's size, what was encrypted in pieces of size n gives the message back. */
  lemma {:induction false} ChunkedRoundTrip(encrypt: Primitive, decrypt: Primitive, n: nat, rsaSize: nat, m: Bytes)
    requires 0 < n && 0 < rsaSize && Inverse(encrypt, decrypt, n, rsaSize)
    ensures Chunked(decrypt, rsaSize, Chunked(encrypt, n, m)) == m
    decreases |m|
  {
    if |m| > n {
      var rest := Chunked(encrypt, n, m[n..]);
      ChunkedRoundTrip(encrypt, decrypt, n, rsaSize, m[n..]);
      ChunkedLength(encrypt, n, m[n..], rsaSize);
      var c := encrypt(m[..n]) + rest;
      assert c[..rsaSize] == encrypt(m[..n]) && c[rsaSize..] == rest;
    }
  }

  /** A message in pieces, all of size n but the last: what comes out are the results of the pieces, in their order. */
  lemma {:induction false} PiecesAreTransformed(f: Primitive, n: nat, pieces: seq<Bytes>)
    requires 0 < n && forall i :: 0 <= i < |pieces| ==> 1 <= |pieces[i]| <= n && (i < |pieces| - 1 ==> |pieces[i]| == n)
    ensures Chunked(f, n, Concat(pieces)) == Concat(seq(|pieces|, i requires 0 <= i < |pieces| => f(pieces[i])))
  {
    if pieces != [] {
      var first, rest := pieces[0], pieces[1..];
      assert pieces == [first] + rest;
      var results := seq(|rest|, i requires 0 <= i < |rest| => f(rest[i]));
      assert seq(|pieces|, i requires 0 <= i < |pieces| => f(pieces[i])) == [f(first)] + results;
      PiecesAreTransformed(f, n, rest);
      ConcatFirst(first, rest);
      ConcatFirst(f(first), results);
      if rest == [] {
        assert first + [] == first && f(first) + [] == f(first) && results == [];
      } else {
        var m := Concat(pieces);
        SomeBytes(rest);
        assert m[..n] == first && m[n..] == Concat(rest);
      }
    }
  }

  lemma {:induction false} ConcatFirst(first: Bytes, rest: seq<Bytes>)
    ensures Concat([first] + rest) == first + Concat(rest)
    decreases |rest|
  {
    if rest == [] {
      assert [first] + rest == [first] && [first][..0] == [];
    } else {
      var k := |rest| - 1;
      assert ([first] + rest)[..|rest|] == [first] + rest[..k];
      ConcatFirst(first, rest[..k]);
      AppendBlock(first, Concat(rest[..k]), rest[k]);
    }
  }

  lemma SomeBytes(pieces: seq<Bytes>)
    requires pieces != [] && pieces[|pieces| - 1] != []
    ensures Concat(pieces) != []
  {
  }

  lemma {:induction false} ChunkedLength(f: Primitive, n: nat, m: Bytes, rsaSize: nat)
    requires 0 < n && forall p: Bytes :: 1 <= |p| <= n ==> |f(p)| == rsaSize
    ensures m != [] ==> |Chunked(f, n, m)| >= rsaSize
  {
  }

  // ------------------------------------------------------------------------------------------
  // Lazy emission: a full piece is transformed when the next byte arrives
  // ------------------------------------------------------------------------------------------

  function Emitted(f: Primitive, n: nat, m: Bytes): Bytes
    requires n > 0
    decreases |m|
  {
    if |m| <= n then [] else f(m[..n]) + Emitted(f, n, m[n..])
  }

  function Held(n: nat, m: Bytes): (h: Bytes)
    requires n > 0
    ensures |h| <= n && (m != [] ==> h != []) && (m == [] ==> h == [])
    decreases |m|
  {
    if |m| <= n then m else Held(n, m[n..])
  }

  /** What finalize adds. */
  function LastPiece(f: Primitive, n: nat, m: Bytes): Bytes
    requires n > 0
  {
    if m == [] then [] else f(Held(n, m))
  }

  lemma {:induction false} EmittedAndLast(f: Primitive, n: nat, m: Bytes)
    requires n > 0
    ensures Chunked(f, n, m) == Emitted(f, n, m) + LastPiece(f, n, m)
    decreases |m|
  {
    if |m| > n { EmittedAndLast(f, n, m[n..]); }
  }

  /** Bytes that fit in the buffer are only held. */
  lemma {:induction false} Hold(f: Primitive, n: nat, m: Bytes, p: Bytes)
    requires n > 0 && |Held(n, m)| + |p| <= n
    ensures Emitted(f, n, m + p) == Emitted(f, n, m) && Held(n, m + p) == Held(n, m) + p
    decreases |m|
  {
    if |m| > n {
      assert (m + p)[..n] == m[..n] && (m + p)[n..] == m[n..] + p;
      Hold(f, n, m[n..], p);
    }
  }

  /** With the buffer full, further bytes push its content out. */
  lemma {:induction false} Flush(f: Primitive, n: nat, m: Bytes, p: Bytes)
    requires n > 0 && |Held(n, m)| == n && 1 <= |p| <= n
    ensures Emitted(f, n, m + p) == Emitted(f, n, m) + f(Held(n, m)) && Held(n, m + p) == p
    decreases |m|
  {
    if |m| > n {
      assert (m + p)[..n] == m[..n] && (m + p)[n..] == m[n..] + p;
      Flush(f, n, m[n..], p);
    } else {
      assert (m + p)[..n] == m && (m + p)[n..] == p;
    }
  }

  lemma {:induction false} EmittedGrows(f: Primitive, n: nat, m: Bytes, p: Bytes)
    requires n > 0
    ensures Emitted(f, n, m) <= Emitted(f, n, m + p)
    decreases |m|
  {
    if |m| > n {
      assert (m + p)[..n] == m[..n] && (m + p)[n..] == m[n..] + p;
      EmittedGrows(f, n, m[n..], p);
    }
  }

  // ------------------------------------------------------------------------------------------
  // Capacity
  // ------------------------------------------------------------------------------------------

  /** No result is larger than the key. */
  ghost predicate Bounded(f: Primitive, n: nat, rsaSize: nat) {
    0 < n <= rsaSize && forall p: Bytes :: 1 <= |p| <= n ==> |f(p)| <= rsaSize
  }

  /** Every result has the size of the key, as those of an encryption do. */
  ghost predicate FixedSize(f: Primitive, n: nat, rsaSize: nat) {
    0 < n <= rsaSize && forall p: Bytes :: 1 <= |p| <= n ==> |f(p)| == rsaSize
  }

  /** What p puts out when it arrives behind m. */
  function NewOutput(f: Primitive, n: nat, m: Bytes, p: Bytes): int
    requires n > 0
  {
    |Emitted(f, n, m + p)| - |Emitted(f, n, m)|
  }

  /** The pieces pushed out by the time size bytes are in: all but the last, which waits. */
  function Pushed(n: nat, size: nat): nat
    requires n > 0
    decreases size
  {
    if size <= n then 0 else 1 + Pushed(n, size - n)
  }

  lemma {:induction false} PushedIsQuotient(n: nat, size: nat)
    requires n > 0 && size > 0
    ensures Pushed(n, size) == (size - 1) / n
    decreases size
  {
    if size > n {
      PushedIsQuotient(n, size - n);
      NextQuotient(n, size - 1);
    } else {
      SmallQuotient(n, size - 1);
    }
  }

  lemma NextQuotient(n: nat, x: nat)
    requires 0 < n <= x
    ensures x / n == 1 + (x - n) / n
  {
    var q := (x - n) / n;
    assert x - n == n * q + (x - n) % n;
    QuotientIs(n, x, q + 1, (x - n) % n);
  }

  lemma SmallQuotient(n: nat, x: nat)
    requires x < n
    ensures x / n == 0
  {
    QuotientIs(n, x, 0, x);
  }

  lemma QuotientIs(n: nat, x: nat, q: nat, r: nat)
    requires r < n && x == n * q + r
    ensures x / n == q
  {
    var d := x / n - q;
    assert (d >= 1 ==> n * d >= n) && (d <= -1 ==> n * d + n <= 0);
    assert n * (x / n) == n * q + n * d;
  }

  lemma {:induction false} PushedGrows(n: nat, a: nat, b: nat)
    requires n > 0 && a <= b
    ensures Pushed(n, a) <= Pushed(n, b)
    decreases a
  {
    if a > n { PushedGrows(n, a - n, b - n); }
  }

  lemma {:induction false} EmittedSize(f: Primitive, n: nat, rsaSize: nat, q: Bytes)
    requires Bounded(f, n, rsaSize)
    ensures |Emitted(f, n, q)| <= rsaSize * Pushed(n, |q|)
    ensures FixedSize(f, n, rsaSize) ==> |Emitted(f, n, q)| == rsaSize * Pushed(n, |q|)
    decreases |q|
  {
    if |q| > n {
      EmittedSize(f, n, rsaSize, q[n..]);
      assert rsaSize * Pushed(n, |q|) == rsaSize + rsaSize * Pushed(n, |q| - n);
    }
  }

  /** Whatever the buffer holds, p puts out no more pieces than it would arriving at a full buffer. */
  lemma {:induction false} OutputAtFullBuffer(f: Primitive, n: nat, rsaSize: nat, m: Bytes, p: Bytes)
    requires Bounded(f, n, rsaSize)
    ensures NewOutput(f, n, m, p) <= rsaSize * Pushed(n, n + |p|)
    ensures FixedSize(f, n, rsaSize) && |m| == n ==> NewOutput(f, n, m, p) == rsaSize * Pushed(n, n + |p|)
    decreases |m|
  {
    if |m| > n {
      assert (m + p)[..n] == m[..n] && (m + p)[n..] == m[n..] + p;
      OutputAtFullBuffer(f, n, rsaSize, m[n..], p);
    } else {
      EmittedSize(f, n, rsaSize, m + p);
      PushedGrows(n, |m + p|, n + |p|);
      TimesGrows(rsaSize, Pushed(n, |m + p|), Pushed(n, n + |p|));
    }
  }

  lemma TimesGrows(k: nat, a: nat, b: nat)
    requires a <= b
    ensures k * a <= k * b
  {
  }

  // ------------------------------------------------------------------------------------------
  // When every read fits
  // ------------------------------------------------------------------------------------------

  /** A chunk that readFromDevice takes for the given room, whatever has been read before, puts out no more than that room. */
  ghost predicate ReadFits(f: Primitive, n: nat, rsaSize: nat, space: nat, m: Bytes, p: Bytes)
    requires n > 0
  {
    1 <= |p| <= space / 2 - rsaSize ==> NewOutput(f, n, m, p) <= space
  }

  ghost predicate PiecesFit(f: Primitive, n: nat, rsaSize: nat) {
    Bounded(f, n, rsaSize) && rsaSize <= 2 * n
  }

  lemma {:induction false} EmittedBound(f: Primitive, n: nat, rsaSize: nat, q: Bytes)
    requires PiecesFit(f, n, rsaSize)
    ensures |q| > n ==> |Emitted(f, n, q)| <= rsaSize + 2 * (|q| - n - 1)
    decreases |q|
  {
    if |q| > n { EmittedBound(f, n, rsaSize, q[n..]); }
  }

  /** Feeding p emits less than one block more than twice the size of p, whatever is in the buffer. */
  lemma {:induction false} NewOutputBound(f: Primitive, n: nat, rsaSize: nat, m: Bytes, p: Bytes)
    requires PiecesFit(f, n, rsaSize) && p != []
    ensures NewOutput(f, n, m, p) <= rsaSize + 2 * (|p| - 1)
    decreases |m|
  {
    if |m| > n {
      assert (m + p)[..n] == m[..n] && (m + p)[n..] == m[n..] + p;
      NewOutputBound(f, n, rsaSize, m[n..], p);
    } else {
      EmittedBound(f, n, rsaSize, m + p);
    }
  }

  /** The room computation of readFromDevice is right, for every room and every input, if and only if a block is at most twice
      as long as a piece. */
  lemma ReadsFitExactly(f: Primitive, n: nat, rsaSize: nat)
    requires FixedSize(f, n, rsaSize)
    ensures (forall space: nat, m: Bytes, p: Bytes :: ReadFits(f, n, rsaSize, space, m, p)) <==> rsaSize <= 2 * n
  {
    if rsaSize <= 2 * n {
      forall space: nat, m: Bytes, p: Bytes ensures ReadFits(f, n, rsaSize, space, m, p) {
        if p != [] { NewOutputBound(f, n, rsaSize, m, p); }
      }
    } else {
      var k := 2 * rsaSize + 1;
      var space := 2 * (rsaSize + n * k);
      var m, p := Zeros(n), Zeros(n * k);
      ReadOverflows(f, n, rsaSize, m, p);
      assert !ReadFits(f, n, rsaSize, space, m, p);
    }
  }

  /** An input of 2 * rsaSize + 1 pieces at a full buffer overflows the room for which it is read, if a block is longer. */
  lemma ReadOverflows(f: Primitive, n: nat, rsaSize: nat, m: Bytes, p: Bytes)
    requires FixedSize(f, n, rsaSize) && rsaSize > 2 * n && |m| == n && |p| == n * (2 * rsaSize + 1)
    ensures NewOutput(f, n, m, p) > 2 * (rsaSize + |p|)
  {
    OutputAtFullBuffer(f, n, rsaSize, m, p);
    PushedWhole(n, 2 * rsaSize + 1);
    Overrun(n, rsaSize, 2 * rsaSize + 1);
  }

  lemma Overrun(n: nat, rsaSize: nat, k: nat)
    requires rsaSize >= 2 * n + 1 && k == 2 * rsaSize + 1
    ensures rsaSize * k > 2 * (rsaSize + n * k)
  {
    TimesGrows(k, 2 * n + 1, rsaSize);
    assert k * (2 * n + 1) == 2 * (n * k) + k;
  }

  lemma {:induction false} PushedWhole(n: nat, k: nat)
    requires n > 0
    ensures Pushed(n, n + n * k) == k
    decreases k
  {
    if k > 0 {
      assert n * k == n + n * (k - 1);
      PushedWhole(n, k - 1);
    }
  }

  function Zeros(n: nat): (z: Bytes)
    ensures |z| == n
  {
    seq(n, _ => 0)
  }

  /** The keys that break it: with 512 bits and OAEP (23 bytes a piece), 436 bytes read into a room of 1000, arriving at a full
      buffer, emit 1216 bytes. */
  lemma ShortKeyOverflows(f: Primitive, m: Bytes, p: Bytes)
    requires FixedSize(f, 23, 64) && |m| == 23 && |p| == 1000 / 2 - 64
    ensures MaxDataSize(Pkcs1Oaep, 64) == 23 && NewOutput(f, 23, m, p) == 1216
  {
    OutputAtFullBuffer(f, 23, 64, m, p);
    PushedIsQuotient(23, 23 + |p|);
  }

  // ------------------------------------------------------------------------------------------
  // When every write fits
  // ------------------------------------------------------------------------------------------

  /** The most that half a buffer of input puts out: one block for each piece begun. */
  function WriteRoom(n: nat, rsaSize: nat, bufferSize: nat): nat
    requires n > 0
  {
    (bufferSize / 2 + n - 1) / n * rsaSize
  }

  lemma RoomIsPushed(n: nat, rsaSize: nat, bufferSize: nat)
    requires n > 0
    ensures WriteRoom(n, rsaSize, bufferSize) == rsaSize * Pushed(n, n + bufferSize / 2)
  {
    PushedIsQuotient(n, n + bufferSize / 2);
  }

  ghost predicate WriteFits(f: Primitive, n: nat, bufferSize: nat, m: Bytes, p: Bytes)
    requires n > 0
  {
    |p| <= bufferSize / 2 ==> NewOutput(f, n, m, p) <= bufferSize
  }

  lemma HalfBufferFits(f: Primitive, n: nat, rsaSize: nat, bufferSize: nat, m: Bytes, p: Bytes)
    requires Bounded(f, n, rsaSize) && WriteRoom(n, rsaSize, bufferSize) <= bufferSize
    ensures WriteFits(f, n, bufferSize, m, p)
  {
    if |p| <= bufferSize / 2 {
      hide Pushed, NewOutput;
      OutputAtFullBuffer(f, n, rsaSize, m, p);
      PushedGrows(n, n + |p|, n + bufferSize / 2);
      TimesGrows(rsaSize, Pushed(n, n + |p|), Pushed(n, n + bufferSize / 2));
      RoomIsPushed(n, rsaSize, bufferSize);
    }
  }

  /** The chunks of writeToDevice, half a buffer each, put out no more than a buffer, whatever has been written before, if and
      only if one block for each piece begun in half a buffer does not come to more. */
  lemma WritesFitExactly(f: Primitive, n: nat, rsaSize: nat, bufferSize: nat)
    requires FixedSize(f, n, rsaSize)
    ensures (forall m: Bytes, p: Bytes :: WriteFits(f, n, bufferSize, m, p)) <==> WriteRoom(n, rsaSize, bufferSize) <= bufferSize
  {
    if WriteRoom(n, rsaSize, bufferSize) <= bufferSize {
      forall m: Bytes, p: Bytes ensures WriteFits(f, n, bufferSize, m, p) {
        HalfBufferFits(f, n, rsaSize, bufferSize, m, p);
      }
    } else {
      var m, p := Zeros(n), Zeros(bufferSize / 2);
      OutputAtFullBuffer(f, n, rsaSize, m, p);
      RoomIsPushed(n, rsaSize, bufferSize);
      assert !WriteFits(f, n, bufferSize, m, p);
    }
  }

  /** A legal buffer that is too small for what it is given: 350 bytes with a key of 1024 bits and OAEP. A chunk of 175 bytes,
      arriving at a full piece, puts out 384. */
  lemma SmallBufferOverflows(f: Primitive, m: Bytes, p: Bytes)
    requires FixedSize(f, 87, 128) && |m| == 87 && |p| == 350 / 2
    ensures MaxDataSize(Pkcs1Oaep, 128) == 87 && 350 > 2 * 128 && NewOutput(f, 87, m, p) == 384
  {
    OutputAtFullBuffer(f, 87, 128, m, p);
    PushedIsQuotient(87, 87 + |p|);
  }

  /** The buffers of a decryption, whose pieces have the size of the key, always suffice. */
  lemma DecryptionFits(rsaSize: nat, bufferSize: nat)
    requires 0 < rsaSize && bufferSize > 2 * rsaSize
    ensures WriteRoom(rsaSize, rsaSize, bufferSize) <= bufferSize
  {
    var x := bufferSize / 2 + rsaSize - 1;
    assert x == rsaSize * (x / rsaSize) + x % rsaSize;
  }

  // ------------------------------------------------------------------------------------------
  // RSAEncryptImpl and RSADecryptImpl
  // ------------------------------------------------------------------------------------------

  /** RSAEncryptImpl with pieces of maxDataSize bytes, RSADecryptImpl with pieces of the key's size.
      What is written through the output pointer is returned; outputLength is the room behind that pointer. */
  class RsaTransform {
    const primitive: Primitive
    const pieceSize: nat
    const rsaSize: nat
    const pBuf: array<byte>
    var pos: nat
    /** Everything passed to Transform so far. */
    ghost var fed: Bytes

    ghost predicate Valid()
      reads this, pBuf
    {
      0 < pieceSize <= rsaSize && pBuf.Length == rsaSize
      && pos == |Held(pieceSize, fed)| && pBuf[..pos] == Held(pieceSize, fed)
    }

    constructor (primitive: Primitive, pieceSize: nat, rsaSize: nat)
      requires 0 < pieceSize <= rsaSize
      ensures Valid() && fresh(pBuf) && fed == []
      ensures this.primitive == primitive && this.pieceSize == pieceSize && this.rsaSize == rsaSize
    {
      this.primitive, this.pieceSize, this.rsaSize := primitive, pieceSize, rsaSize;
      pBuf := new byte[rsaSize];
      pos, fed := 0, [];
    }

    /** memcpy to pBuf + pos */
    method Append(part: Bytes)
      requires pos + |part| <= pBuf.Length
      modifies pBuf, `pos
      ensures pos == old(pos) + |part| && pBuf[..pos] == old(pBuf[..pos]) + part
    {
      forall k | 0 <= k < |part| { pBuf[pos + k] := part[k]; }
      pos := pos + |part|;
    }

    /** One pass of the transform loop: empty the buffer if it is full, then copy what fits of the rest of the input.
        (The source takes the two steps in separate iterations; the first never comes without the second.)
        Before a call of an encrypting primitive the source asserts that the room suffices for a whole block. */
    method Pass(rest: Bytes, outputLength: nat) returns (out: Bytes, taken: nat)
      requires Valid() && rest != [] && NewOutput(primitive, pieceSize, fed, rest) <= outputLength
      modifies this, pBuf
      ensures Valid() && 1 <= taken <= |rest| && fed == old(fed) + rest[..taken] && |out| <= outputLength
      ensures Emitted(primitive, pieceSize, fed) == old(Emitted(primitive, pieceSize, fed)) + out
    {
      out := [];
      taken := pieceSize - pos;
      if taken == 0 {
        FlushFits(primitive, pieceSize, fed, rest);
        assert FixedSize(primitive, pieceSize, rsaSize) ==> outputLength >= rsaSize;
        out := primitive(pBuf[..pieceSize]);
        pos := 0;
        taken := pieceSize;
        if taken > |rest| { taken := |rest|; }
        Flush(primitive, pieceSize, fed, rest[..taken]);
      } else {
        if taken > |rest| { taken := |rest|; }
        Hold(primitive, pieceSize, fed, rest[..taken]);
      }
      Append(rest[..taken]);
      fed := fed + rest[..taken];
    }

    method Transform(input: Bytes, outputLength: nat) returns (out: Bytes)
      requires Valid() && outputLength >= rsaSize && NewOutput(primitive, pieceSize, fed, input) <= outputLength
      modifies this, pBuf
      ensures Valid() && fed == old(fed) + input && |out| <= outputLength
      ensures Emitted(primitive, pieceSize, fed) == old(Emitted(primitive, pieceSize, fed)) + out
    {
      out := [];
      var at := 0;
      ghost var before, emitted := fed, Emitted(primitive, pieceSize, fed);
      assert before + input[..0] == before;
      while at < |input|
        invariant at <= |input| && Valid() && fed == before + input[..at]
        invariant emitted + out == Emitted(primitive, pieceSize, fed) && |out| <= outputLength
      {
        assert fed + input[at..] == before + input;
        var block, taken := Pass(input[at..], outputLength - |out|);
        AppendBlock(emitted, out, block);
        assert input[..at + taken] == input[..at] + input[at..][..taken];
        out := out + block;
        at := at + taken;
      }
      assert input[..at] == input;
    }

    method Finalize(length: nat) returns (out: Bytes)
      requires Valid() && length >= rsaSize
      ensures out == LastPiece(primitive, pieceSize, fed)
    {
      if pos > 0 { return primitive(pBuf[..pos]); }
      return [];
    }
  }

  // ------------------------------------------------------------------------------------------
  // CryptoStreamBuf
  // ------------------------------------------------------------------------------------------

  class ReadBuffer {
    const transform: RsaTransform
    const bufferSize: nat
    /** The input stream: what it still holds, and whether it is good(). */
    var source: Bytes
    var good: bool
    var eof: bool
    /** The whole input, and what has been delivered so far. */
    ghost const whole: Bytes
    ghost var delivered: Bytes

    ghost function Result(): Bytes
      requires transform.pieceSize > 0
      reads this
    {
      Chunked(transform.primitive, transform.pieceSize, whole)
    }

    ghost predicate Valid()
      reads this, transform, transform.pBuf
    {
      bufferSize > 2 * transform.rsaSize
      && PiecesFit(transform.primitive, transform.pieceSize, transform.rsaSize)
      && transform.Valid()
      && (!good ==> source == [])
      && whole == transform.fed + source
      && delivered == if eof then Result() else Emitted(transform.primitive, transform.pieceSize, transform.fed)
    }

    constructor (transform: RsaTransform, bufferSize: nat, source: Bytes)
      requires bufferSize > 2 * transform.rsaSize && transform.Valid() && transform.fed == []
      requires PiecesFit(transform.primitive, transform.pieceSize, transform.rsaSize)
      ensures Valid() && !eof && delivered == [] && whole == source
      ensures this.transform == transform && this.bufferSize == bufferSize
    {
      this.transform, this.bufferSize := transform, bufferSize;
      this.source, this.whole, good, eof, delivered := source, source, true, false, [];
    }

    /** istream::read: up to m bytes; coming up short ends the good state. */
    method Read(m: nat) returns (chunk: Bytes)
      requires good
      modifies `source, `good
      ensures old(source) == chunk + source && |chunk| <= m && (chunk == [] ==> source == [] || m == 0)
      ensures !good ==> source == []
    {
      var n := if m <= |source| then m else |source|;
      chunk := source[..n];
      good := n == m;
      source := source[n..];
    }

    /** One iteration of the readFromDevice loop with the given room: transform what the stream has, or finalize once it has
        no more. The transform gets the room that any cipher demands (input plus a block, less one) and all it needs. */
    method ReadStep(space: nat) returns (out: Bytes)
      requires Valid() && !eof && space / 2 > transform.rsaSize
      modifies this, transform, transform.pBuf
      ensures Valid() && |out| <= space && delivered == old(delivered) + out && |source| <= |old(source)|
      ensures eof || |source| < |old(source)|
    {
      var m := space / 2 - transform.rsaSize;
      var chunk := [];
      if good { chunk := Read(m); }
      hide Emitted, Chunked, Held, NewOutput, PiecesFit;
      if chunk == [] {
        eof := true;
        assert whole == transform.fed;
        EmittedAndLast(transform.primitive, transform.pieceSize, transform.fed);
        out := transform.Finalize(space);
      } else {
        assert |chunk| + transform.rsaSize - 1 <= space;
        NewOutputBound(transform.primitive, transform.pieceSize, transform.rsaSize, transform.fed, chunk);
        out := transform.Transform(chunk, space);
      }
      delivered := delivered + out;
    }

    /** readFromDevice: the bytes put into a buffer of the given length. */
    method ReadFromDevice(length: int) returns (buffer: Bytes)
      requires Valid()
      modifies this, transform, transform.pBuf
      ensures Valid() && delivered == old(delivered) + buffer && (buffer != [] ==> |buffer| <= length)
      ensures |source| <= |old(source)| && (buffer != [] ==> |source| < |old(source)| || (eof && !old(eof)))
      ensures old(eof) ==> buffer == [] && eof
      ensures buffer == [] ==> eof || length / 2 <= transform.rsaSize
      ensures length / 2 <= transform.rsaSize ==> buffer == [] && eof == old(eof)
    {
      buffer := [];
      ghost var before := delivered;
      while !eof
        invariant Valid() && delivered == before + buffer && (buffer != [] ==> |buffer| <= length)
        invariant |source| <= |old(source)| && (buffer != [] ==> |source| < |old(source)| || (eof && !old(eof)))
        invariant length / 2 <= transform.rsaSize || old(eof) ==> buffer == [] && eof == old(eof)
        decreases |source|, !eof
      {
        var m := (length - |buffer|) / 2 - transform.rsaSize;
        if m <= 0 { break; }
        var out := ReadStep(length - |buffer|);
        AppendBlock(before, buffer, out);
        buffer := buffer + out;
      }
    }

    /** Reading the stream to its end through underflow, which offers bufferSize - 4 bytes and takes an empty answer for the
        end. The transformed input comes out exactly when the buffer has 6 bytes more than the two blocks that the
        constructor asks for (or there is nothing to come out); with less, nothing does. */
    method ReadAll() returns (result: Bytes)
      requires Valid() && !eof && delivered == []
      modifies this, transform, transform.pBuf
      ensures result == Result() <==> bufferSize >= 2 * transform.rsaSize + 6 || Result() == []
      ensures bufferSize < 2 * transform.rsaSize + 6 ==> result == []
    {
      result := [];
      var n := 1;
      while n > 0
        invariant Valid() && result == delivered && n >= 0
        invariant n == 0 ==> eof || bufferSize < 2 * transform.rsaSize + 6
        invariant bufferSize < 2 * transform.rsaSize + 6 ==> !eof && delivered == []
        decreases |source|, !eof, n
      {
        var buffer := ReadFromDevice(bufferSize - 4);
        n := |buffer|;
        result := result + buffer;
      }
    }
  }

  class WriteBuffer {
    const transform: RsaTransform
    const bufferSize: nat
    /** Whether the output stream is still attached, and what has been written to it. */
    var attached: bool
    var sink: Bytes

    ghost predicate Valid()
      reads this, transform, transform.pBuf
    {
      bufferSize > 2 * transform.rsaSize
      && Bounded(transform.primitive, transform.pieceSize, transform.rsaSize)
      && WriteRoom(transform.pieceSize, transform.rsaSize, bufferSize) <= bufferSize
      && transform.Valid()
      && sink == if attached then Emitted(transform.primitive, transform.pieceSize, transform.fed)
                 else Chunked(transform.primitive, transform.pieceSize, transform.fed)
    }

    constructor (transform: RsaTransform, bufferSize: nat)
      requires bufferSize > 2 * transform.rsaSize && transform.Valid() && transform.fed == []
      requires Bounded(transform.primitive, transform.pieceSize, transform.rsaSize)
      requires WriteRoom(transform.pieceSize, transform.rsaSize, bufferSize) <= bufferSize
      ensures Valid() && attached && this.transform == transform && sink == []
    {
      this.transform, this.bufferSize := transform, bufferSize;
      attached, sink := true, [];
    }

    /** writeToDevice: chunks of at most half the buffer size, so that the output of each fits the buffer. */
    method WriteToDevice(buffer: Bytes) returns (count: nat)
      requires Valid()
      modifies this, transform, transform.pBuf
      ensures Valid() && attached == old(attached)
      ensures attached ==> count == |buffer| && transform.fed == old(transform.fed) + buffer
      ensures !attached ==> count == 0 && transform.fed == old(transform.fed) && sink == old(sink)
    {
      count := 0;
      if !attached { return; }
      var maxChunkSize := bufferSize / 2;
      ghost var before := transform.fed;
      assert before + buffer[..0] == before;
      while count < |buffer|
        invariant count <= |buffer| && Valid() && attached
        invariant transform.fed == before + buffer[..count]
      {
        var n := |buffer| - count;
        if n > maxChunkSize { n := maxChunkSize; }
        var chunk := buffer[count..count + n];
        HalfBufferFits(transform.primitive, transform.pieceSize, transform.rsaSize, bufferSize, transform.fed, chunk);
        assert before + buffer[..count + n] == before + buffer[..count] + chunk;
        var out := transform.Transform(chunk, bufferSize);
        count := count + n;
        sink := sink + out;
      }
      assert buffer[..count] == buffer;
    }

    /** close: finalize once; closing again changes nothing. */
    method Close()
      requires Valid()
      modifies this
      ensures Valid() && !attached && transform.fed == old(transform.fed)
      ensures sink == Chunked(transform.primitive, transform.pieceSize, transform.fed)
      ensures !old(attached) ==> sink == old(sink)
    {
      if attached {
        attached := false;
        EmittedAndLast(transform.primitive, transform.pieceSize, transform.fed);
        var last := transform.Finalize(bufferSize);
        sink := sink + last;
      }
    }
  }

  /** Data pushed through an encrypting output stream in any pieces, and the result pulled through a decrypting input stream,
      come back unchanged. */
  method EncryptAndDecrypt(encrypt: Primitive, decrypt: Primitive, padding: Padding, rsaSize: nat,
                           chunks: seq<Bytes>, outBuffer: nat, inBuffer: nat)
    returns (cipher: Bytes, plain: Bytes)
    requires 0 < MaxDataSize(padding, rsaSize)
    requires WriteRoom(MaxDataSize(padding, rsaSize), rsaSize, outBuffer) <= outBuffer
    requires Inverse(encrypt, decrypt, MaxDataSize(padding, rsaSize), rsaSize)
    requires forall p: Bytes :: 1 <= |p| <= rsaSize ==> |decrypt(p)| <= rsaSize
    requires outBuffer > 2 * rsaSize && inBuffer >= 2 * rsaSize + 6
    ensures cipher == Chunked(encrypt, MaxDataSize(padding, rsaSize), Concat(chunks)) && plain == Concat(chunks)
  {
    var n := MaxDataSize(padding, rsaSize);
    var encryptor := new RsaTransform(encrypt, n, rsaSize);
    var output := new WriteBuffer(encryptor, outBuffer);
    for i := 0 to |chunks|
      invariant output.Valid() && output.attached && output.transform == encryptor
      invariant fresh(output) && fresh(encryptor) && fresh(encryptor.pBuf)
      invariant encryptor.fed == Concat(chunks[..i]) && encryptor.primitive == encrypt && encryptor.pieceSize == n
    {
      var count := output.WriteToDevice(chunks[i]);
      assert chunks[..i + 1][..i] == chunks[..i];
    }
    assert chunks[..|chunks|] == chunks;
    output.Close();
    cipher := output.sink;
    ChunkedRoundTrip(encrypt, decrypt, n, rsaSize, Concat(chunks));
    var decryptor := new RsaTransform(decrypt, rsaSize, rsaSize);
    var input := new ReadBuffer(decryptor, inBuffer, cipher);
    plain := input.ReadAll();
  }

  function Concat(chunks: seq<Bytes>): Bytes {
    if chunks == [] then [] else Concat(chunks[..|chunks| - 1]) + chunks[|chunks| - 1]
  }

  lemma AppendBlock(a: Bytes, b: Bytes, c: Bytes)
    ensures a + b + c == a + (b + c)
  {
  }

  /** A flush inside transform stays within what the whole call emits. */
  lemma FlushFits(f: Primitive, n: nat, m: Bytes, rest: Bytes)
    requires n > 0 && rest != [] && |Held(n, m)| == n
    ensures |f(Held(n, m))| <= NewOutput(f, n, m, rest)
  {
    Flush(f, n, m, rest[..1]);
    EmittedGrows(f, n, m + rest[..1], rest[1..]);
    assert m + rest[..1] + rest[1..] == m + rest;
  }
}
