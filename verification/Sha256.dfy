/** SHA-256 around its compression function (src/core/hash.c): buffering, padding and the digest, against
    FIPS 180-4 (sections 5.1.1, 5.2.1 and 6.2.2). The compression function is a parameter. */
module Sha256 {
  import opened Base

  type u32 = x: int | 0 <= x < 0x1_0000_0000
  type Words = w: seq<u32> | |w| == 8 witness seq(8, _ => 0)
  type Block = b: bytes | |b| == 64 witness seq(64, _ => 0)
  type Compress = (Words, Block) -> Words

  const IV: Words := [0x6a09e667, 0xbb67ae85, 0x3c6ef372, 0xa54ff53a, 0x510e527f, 0x9b05688c, 0x1f83d9ab, 0x5be0cd19]

  // ---------------------------------------------------------------- the standard

  /** Section 6.2.2: the blocks of a message, in order. */
  function Absorb(C: Compress, h: Words, m: bytes): Words
    requires |m| % 64 == 0
    decreases |m|
  { if m == [] then h else Absorb(C, C(h, m[..64]), m[64..]) }

  /** The low n bytes of v, most significant first. */
  function BigEndian(v: nat, n: nat): (b: bytes)
    ensures |b| == n
  { if n == 0 then [] else BigEndian(v / 0x100, n - 1) + [v % 0x100] }

  function Pow256(n: nat): nat { if n == 0 then 1 else 0x100 * Pow256(n - 1) }

  /** The value of bytes read from left to right. */
  function ValueOf(b: bytes): nat
  { if b == [] then 0 else 0x100 * ValueOf(b[..|b| - 1]) + b[|b| - 1] }

  lemma {:induction false} BigEndianValue(v: nat, n: nat)
    requires v < Pow256(n)
    ensures ValueOf(BigEndian(v, n)) == v
  {
    if n > 0 {
      BigEndianValue(v / 0x100, n - 1);
      assert BigEndian(v, n)[..n - 1] == BigEndian(v / 0x100, n - 1);
    }
  }

  lemma EightBytes()
    ensures Pow256(4) == 0x1_0000_0000 && Pow256(8) == TWO64
  {
    assert Pow256(4) == 0x100 * Pow256(3) == 0x1_0000 * Pow256(2) == 0x100_0000 * Pow256(1);
    assert Pow256(8) == 0x100 * Pow256(7) == 0x1_0000 * Pow256(6) == 0x100_0000 * Pow256(5);
    assert Pow256(5) == 0x100 * Pow256(4);
  }

  /** Section 5.3.3: the first 32 bits of the fractional parts of the square roots of the first eight primes. */
  lemma InitialValue(i: nat)
    requires i < 8
    ensures var p := [2, 3, 5, 7, 11, 13, 17, 19][i]; var whole := [1, 1, 2, 2, 3, 3, 4, 4][i];
            var x: int := whole as int * 0x1_0000_0000 + IV[i];
            x * x <= p * TWO64 < (x + 1) * (x + 1)
  { }

  predicate FillsBlocks(len: nat, zeros: nat) { (len + 1 + zeros + 8) % 64 == 0 }

  /** Zero bytes between the marker and the length. */
  function ZeroCount(len: nat): (k: nat)
    ensures FillsBlocks(len, k) && forall j :: 0 <= j < k ==> !FillsBlocks(len, j)
  {
    var r := len % 64;
    FillsExactly(len, len / 64, r);
    if r < 56 then 55 - r else 119 - r
  }

  lemma FillsExactly(len: nat, q: nat, r: nat)
    requires len == 64 * q + r && r < 64
    ensures var k := if r < 56 then 55 - r else 119 - r;
            FillsBlocks(len, k) && forall j :: 0 <= j < k ==> !FillsBlocks(len, j)
  {
    var k := if r < 56 then 55 - r else 119 - r;
    var n := if r < 56 then 1 else 2;
    forall j | 0 <= j <= k ensures FillsBlocks(len, j) <==> j == k { Remainder(q, r + 9 + j, n); }
  }

  /** Between two multiples of 64 there is none. */
  lemma Remainder(q: nat, x: nat, n: nat)
    requires 64 * (n - 1) < x <= 64 * n
    ensures (64 * q + x) % 64 == 0 <==> x == 64 * n
  { }

  /** Section 5.1.1: a one bit, the fewest zero bits, and the bit length as a 64-bit word. */
  function Padding(len: nat): bytes
  { [0x80] + Zeros(ZeroCount(len)) + BigEndian(8 * len % TWO64, 8) }

  function Pad(m: bytes): (p: bytes)
    ensures |p| % 64 == 0
  { m + Padding(|m|) }

  /** The bit length of a length kept modulo 2^64. */
  lemma BitLength(len: nat)
    ensures len % TWO64 * 8 % TWO64 == 8 * len % TWO64
  {
    var q, r := len / TWO64, len % TWO64;
    assert 8 * len == TWO64 * (8 * q) + 8 * r;
    DropMultiple(8 * q, 8 * r);
  }

  lemma DropMultiple(k: nat, x: nat)
    ensures (TWO64 * k + x) % TWO64 == x % TWO64
  { }

  lemma LengthIsExact(len: nat)
    requires len < 0x2000_0000_0000_0000
    ensures 8 * len % TWO64 == 8 * len
  { }

  /** The padded message, byte by byte. */
  lemma PadMeaning(m: bytes)
    ensures var p, n := Pad(m), |m|;
            && |p| % 64 == 0 && n + 9 <= |p| < n + 73
            && p[..n] == m && p[n] == 0x80 && (forall i :: n < i < |p| - 8 ==> p[i] == 0)
            && ValueOf(p[|p| - 8..]) == 8 * n % TWO64
            && (n < 0x2000_0000_0000_0000 ==> ValueOf(p[|p| - 8..]) == 8 * n)
  {
    hide BigEndian, ValueOf, ZeroCount, Zeros, Pow256, FillsBlocks;
    var n, v := |m|, 8 * |m| % TWO64;
    assert ZeroCount(n) < 64 by { ZeroBound(n); }
    PadParts(m, Zeros(ZeroCount(n)), BigEndian(v, 8));
    EightBytes();
    BigEndianValue(v, 8);
  }

  lemma ZeroBound(len: nat)
    ensures ZeroCount(len) < 64
  { hide FillsBlocks; }

  lemma PadParts(m: bytes, zeros: bytes, tail: bytes)
    requires |tail| == 8
    ensures var p, n := m + ([0x80] + zeros + tail), |m|;
            && |p| == n + 9 + |zeros| && p[..n] == m && p[n] == 0x80 && p[|p| - 8..] == tail
            && forall i :: n < i < |p| - 8 ==> p[i] == zeros[i - n - 1]
  { }

  function DigestBytes(h: seq<u32>): (b: bytes)
    ensures |b| == 4 * |h|
  { if h == [] then [] else DigestBytes(h[..|h| - 1]) + BigEndian(h[|h| - 1], 4) }

  function Digest(h: Words): Bytes32 { DigestBytes(h) }

  lemma {:induction false} DigestBytesAt(h: seq<u32>, j: nat)
    requires j < |h|
    ensures DigestBytes(h)[4 * j..4 * j + 4] == BigEndian(h[j], 4)
    decreases |h|
  {
    hide BigEndian;
    var n := |h| - 1;
    var front, last := DigestBytes(h[..n]), BigEndian(h[n], 4);
    assert DigestBytes(h) == front + last;
    if j < n {
      DigestBytesAt(h[..n], j);
      assert (front + last)[4 * j..4 * j + 4] == front[4 * j..4 * j + 4];
    }
  }

  /** Word j of the state stands in bytes 4j to 4j + 3 of the digest, most significant byte first. */
  lemma DigestMeaning(h: Words, j: nat)
    requires j < 8
    ensures ValueOf(Digest(h)[4 * j..4 * j + 4]) == h[j]
  {
    hide BigEndian, ValueOf;
    DigestBytesAt(h, j);
    EightBytes();
    BigEndianValue(h[j], 4);
  }

  function Sha(C: Compress, m: bytes): Bytes32 { Digest(Absorb(C, IV, Pad(m))) }

  lemma {:induction false} AbsorbAppend(C: Compress, h: Words, a: bytes, b: bytes)
    requires |a| % 64 == 0 && |b| % 64 == 0
    ensures Absorb(C, h, a + b) == Absorb(C, Absorb(C, h, a), b)
    decreases |a|
  {
    if a == [] {
      assert a + b == b;
    } else {
      assert (a + b)[..64] == a[..64] && (a + b)[64..] == a[64..] + b;
      AbsorbAppend(C, C(h, a[..64]), a[64..], b);
    }
  }

  // ---------------------------------------------------------------- what a context stands for

  /** h has absorbed all of m but its last |pending| bytes, which are pending. */
  ghost predicate Rep(C: Compress, h: Words, pending: bytes, m: bytes) {
    && |pending| <= |m| && (|m| - |pending|) % 64 == 0 && m[|m| - |pending|..] == pending
    && h == Absorb(C, IV, m[..|m| - |pending|])
  }

  lemma RepPush(C: Compress, h: Words, pending: bytes, m: bytes, more: bytes)
    requires Rep(C, h, pending, m)
    ensures Rep(C, h, pending + more, m + more)
  {
    var k := |m| - |pending|;
    assert (m + more)[..k] == m[..k] && (m + more)[k..] == m[k..] + more;
  }

  lemma RepCompress(C: Compress, h: Words, pending: bytes, m: bytes)
    requires Rep(C, h, pending, m) && |pending| >= 64
    ensures Rep(C, C(h, pending[..64]), pending[64..], m)
  {
    var k := |m| - |pending|;
    assert m[..k + 64] == m[..k] + pending[..64];
    assert m[k + 64..] == pending[64..];
    AbsorbAppend(C, IV, m[..k], pending[..64]);
    var b := pending[..64];
    assert Absorb(C, Absorb(C, IV, m[..k]), b) == C(h, b) by {
      assert b[..64] == b && b[64..] == [];
    }
  }

  /** A message determines the context, however it was cut into updates. */
  lemma RepUnique(C: Compress, h: Words, p: bytes, h': Words, p': bytes, m: bytes)
    requires Rep(C, h, p, m) && Rep(C, h', p', m) && |p| < 64 && |p'| < 64
    ensures h == h' && p == p'
  { assert |p| == |m| % 64 == |p'|; }

  // ---------------------------------------------------------------- the code

  class Context {
    const C: Compress
    var h: Words
    var totalLen: u64
    const buf: array<byte>
    var bufLen: nat

    ghost predicate Valid(m: bytes)
      reads this, buf
    { buf.Length == 64 && bufLen < 64 && Rep(C, h, buf[..bufLen], m) }

    constructor (C: Compress, totalLen: u64)
      ensures Valid([]) && this.C == C && this.totalLen == totalLen && fresh(buf)
    {
      this.C, this.totalLen := C, totalLen;
      h, bufLen := IV, 0;
      buf := new byte[64](_ => 0);
    }

    /** memcpy into the block buffer. */
    method Fill(data: bytes)
      requires buf.Length == 64 && bufLen + |data| <= 64
      modifies this`bufLen, buf
      ensures bufLen == old(bufLen) + |data| && buf[..bufLen] == old(buf[..bufLen]) + data
    {
      forall i | 0 <= i < |data| { buf[bufLen + i] := data[i]; }
      bufLen := bufLen + |data|;
    }

    /** Tops up a partly filled buffer, compressing it when it is full. */
    method TopUp(data: bytes, ghost m: bytes) returns (pos: nat)
      requires Valid(m) && bufLen > 0
      modifies this`h, this`bufLen, buf
      ensures pos <= |data| && bufLen < 64 && (bufLen > 0 ==> pos == |data|)
      ensures Rep(C, h, buf[..bufLen] + data[pos..], m + data)
    {
      hide Rep;
      ghost var had := buf[..bufLen];
      RepPush(C, h, had, m, data);
      pos := Min(64 - bufLen, |data|);
      Fill(data[..pos]);
      assert buf[..bufLen] + data[pos..] == had + data;
      if bufLen == 64 {
        RepCompress(C, h, had + data, m + data);
        assert (had + data)[..64] == buf[..] && (had + data)[64..] == data[pos..];
        h := C(h, buf[..]);
        bufLen := 0;
        assert buf[..bufLen] + data[pos..] == data[pos..];
      }
    }

    /** Whole blocks are compressed straight out of the input. */
    method Blocks(data: bytes, start: nat, ghost whole: bytes) returns (pos: nat)
      requires start <= |data| && bufLen == 0 && Rep(C, h, data[start..], whole)
      modifies this`h
      ensures pos <= |data| < pos + 64 && Rep(C, h, data[pos..], whole)
    {
      hide Rep;
      pos := start;
      while |data| - pos >= 64
        invariant pos <= |data| && Rep(C, h, data[pos..], whole)
      {
        RepCompress(C, h, data[pos..], whole);
        assert data[pos..][..64] == data[pos..pos + 64] && data[pos..][64..] == data[pos + 64..];
        h := C(h, data[pos..pos + 64]);
        pos := pos + 64;
      }
    }

    method Update(data: bytes, ghost m: bytes)
      requires Valid(m)
      modifies this`h, this`bufLen, buf
      ensures Valid(m + data)
    {
      if |data| == 0 { assert m + data == m; return; }
      hide Rep;
      var pos := 0;
      if bufLen > 0 {
        pos := TopUp(data, m);
        if bufLen > 0 {
          assert buf[..bufLen] + data[pos..] == buf[..bufLen];
          return;
        }
        assert buf[..bufLen] + data[pos..] == data[pos..];
      } else {
        RepPush(C, h, buf[..bufLen], m, data);
        assert buf[..bufLen] + data == data[pos..];
      }
      pos := Blocks(data, pos, m + data);
      Fill(data[pos..]);
      assert buf[..bufLen] == data[pos..];
    }

    /** Appends 0x80 and, when fewer than eight bytes remain, closes the block with zeros. */
    method Mark(ghost m: bytes)
      requires Valid(m)
      modifies this`h, this`bufLen, buf
      ensures bufLen <= 56
      ensures Rep(C, h, buf[..bufLen] + (Zeros(56 - bufLen) + BigEndian(8 * |m| % TWO64, 8)), Pad(m))
    {
      hide Rep, BigEndian, Pad, Padding;
      ghost var tail := buf[..bufLen];
      PaddedRep(C, h, tail, m);
      Fill([0x80]);
      if bufLen > 56 {
        FillZeros(64);
        PaddingTwoBlocks(tail, |m|);
        RepCompress(C, h, tail + Padding(|m|), Pad(m));
        assert buf[..] == buf[..64] == (tail + Padding(|m|))[..64];
        h := C(h, buf[..]);
        bufLen := 0;
        assert buf[..bufLen] == [];
      } else {
        PaddingOneBlock(tail, |m|);
      }
    }

    /** Zeros up to the length field, the bit length, and the last block. */
    method Final(ghost m: bytes) returns (digest: Bytes32)
      requires Valid(m) && totalLen == |m| % TWO64
      modifies this`h, this`bufLen, buf
      ensures digest == Sha(C, m)
    {
      hide Rep, BigEndian, Sha, Pad, Digest, Zeros;
      var bitLen := totalLen * 8 % TWO64;
      BitLength(|m|);
      Mark(m);
      ghost var last := buf[..bufLen] + (Zeros(56 - bufLen) + BigEndian(bitLen, 8));
      FillZeros(56);
      Fill(BigEndian(bitLen, 8));
      assert buf[..] == last && last[..64] == last && last[64..] == [];
      RepCompress(C, h, last, Pad(m));
      h := C(h, buf[..]);
      RepDone(C, h, m);
      digest := Digest(h);
    }

    method FillZeros(upTo: nat)
      requires buf.Length == 64 && bufLen <= upTo <= 64
      modifies this`bufLen, buf
      ensures bufLen == upTo && buf[..upTo] == old(buf[..bufLen]) + Zeros(upTo - old(bufLen))
    {
      ghost var had := buf[..bufLen];
      while bufLen < upTo
        invariant |had| <= bufLen <= upTo && buf[..|had|] == had
        invariant forall i :: |had| <= i < bufLen ==> buf[i] == 0
      {
        buf[bufLen] := 0;
        bufLen := bufLen + 1;
      }
      assert buf[..upTo] == buf[..|had|] + buf[|had|..upTo];
    }
  }

  lemma PaddedRep(C: Compress, h: Words, pending: bytes, m: bytes)
    requires Rep(C, h, pending, m) && |pending| < 64
    ensures |pending| == |m| % 64 && Rep(C, h, pending + Padding(|m|), Pad(m))
  {
    assert |pending| == |m| % 64;
    hide Rep, Padding;
    RepPush(C, h, pending, m, Padding(|m|));
  }

  lemma RepDone(C: Compress, h: Words, m: bytes)
    requires Rep(C, h, [], Pad(m))
    ensures Digest(h) == Sha(C, m)
  { assert Pad(m)[..|Pad(m)|] == Pad(m); }

  lemma ZerosSplit(a: nat, b: nat)
    ensures Zeros(a + b) == Zeros(a) + Zeros(b)
  { }

  lemma PaddingOneBlock(tail: bytes, len: nat)
    requires |tail| == len % 64 && |tail| + 1 <= 56
    ensures tail + Padding(len) == (tail + [0x80]) + (Zeros(56 - (|tail| + 1)) + BigEndian(8 * len % TWO64, 8))
  {
    assert ZeroCount(len) == 55 - |tail|;
    hide BigEndian, FillsBlocks, ZeroCount;
  }

  lemma PaddingTwoBlocks(tail: bytes, len: nat)
    requires |tail| == len % 64 && 56 < |tail| + 1 <= 64
    ensures var p := tail + Padding(len);
            && |p| == 128 && p[..64] == (tail + [0x80]) + Zeros(64 - (|tail| + 1))
            && p[64..] == [] + (Zeros(56) + BigEndian(8 * len % TWO64, 8))
  {
    assert ZeroCount(len) == 119 - |tail|;
    hide BigEndian, FillsBlocks, ZeroCount;
    ZerosSplit(63 - |tail|, 56);
  }

  /** vicarl__sha256: one update, one final. */
  method Hash(C: Compress, data: bytes) returns (digest: Bytes32)
    requires |data| < TWO64
    ensures digest == Sha(C, data)
  {
    hide Sha, Rep, Zeros;
    var ctx := new Context(C, |data|);
    ctx.Update(data, []);
    assert [] + data == data;
    digest := ctx.Final(data);
  }
}
