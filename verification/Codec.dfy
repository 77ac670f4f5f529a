/** Unsigned LEB128, length-delimited bytes, the growing write buffer and the reader cursor
    (src/core/codec.c). */
module Codec {
  import opened Base

  const VARINT_MAX: nat := 10

  // ---------------------------------------------------------------- 7-bit places

  /** x moved k places of seven bits up. */
  function Lift(x: nat, k: nat): (r: nat)
    ensures r >= x
  { if k == 0 then x else 0x80 * Lift(x, k - 1) }

  lemma LiftMono(x: nat, y: nat, a: nat, b: nat)
    requires x <= y && a <= b
    ensures Lift(x, a) <= Lift(y, b)
  { }

  lemma LiftNine(x: nat)
    ensures Lift(x, 9) == TWO63 * x
  {
    assert Lift(x, 3) == 0x80 * Lift(x, 2) == 0x4000 * Lift(x, 1) == 0x20_0000 * x;
    assert Lift(x, 6) == 0x80 * Lift(x, 5) == 0x4000 * Lift(x, 4) == 0x20_0000 * Lift(x, 3);
    assert Lift(x, 9) == 0x80 * Lift(x, 8) == 0x4000 * Lift(x, 7) == 0x20_0000 * Lift(x, 6);
  }

  // ---------------------------------------------------------------- varint meaning

  function VarEncode(v: nat): (e: bytes)
    ensures |e| >= 1
  { if v < 0x80 then [v] else [v % 0x80 + 0x80] + VarEncode(v / 0x80) }

  /** Little-endian value of the 7-bit groups of b. */
  function Groups(b: bytes): nat
  { if b == [] then 0 else b[0] % 0x80 + 0x80 * Groups(b[1..]) }

  /** One past the first byte without a continuation bit, looking below position limit. */
  function VarEnd(s: bytes, p: nat, limit: nat): (q: Option<nat>)
    ensures q.Some? ==> p < q.value <= |s| && q.value <= limit && s[q.value - 1] < 0x80
    ensures q.Some? ==> forall k :: p <= k < q.value - 1 ==> s[k] >= 0x80
    decreases limit - p
  {
    if p >= limit || p >= |s| then None
    else if s[p] < 0x80 then Some(p + 1)
    else VarEnd(s, p + 1, limit)
  }

  /** Reading a varint at p: its value and the position after it. */
  function VarAt(s: bytes, p: nat): (r: Option<(u64, nat)>)
    ensures r.Some? ==> p < r.value.1 <= |s| && r.value.1 <= p + VARINT_MAX
  {
    var q :- VarEnd(s, p, p + VARINT_MAX);
    Some((Groups(s[p..q]) % TWO64, q))
  }

  lemma {:induction false} GroupsAppend(a: bytes, b: byte)
    ensures Groups(a + [b]) == Groups(a) + Lift(b % 0x80, |a|)
  {
    if a == [] {
      assert a + [b] == [b];
    } else {
      assert (a + [b])[1..] == a[1..] + [b];
      GroupsAppend(a[1..], b);
    }
  }

  lemma {:induction false} GroupsBound(a: bytes)
    ensures Groups(a) < Lift(1, |a|)
  { if a != [] { GroupsBound(a[1..]); } }

  lemma {:induction false} VarMeaning(v: nat)
    ensures Groups(VarEncode(v)) == v
    ensures forall k :: 0 <= k < |VarEncode(v)| - 1 ==> VarEncode(v)[k] >= 0x80
    ensures VarEncode(v)[|VarEncode(v)| - 1] < 0x80
    ensures |VarEncode(v)| == 1 || VarEncode(v)[|VarEncode(v)| - 1] != 0
  {
    if v >= 0x80 {
      VarMeaning(v / 0x80);
      assert VarEncode(v)[1..] == VarEncode(v / 0x80);
    }
  }

  /** Byte k of an encoding carries digit k of the value to base 128, lowest first, and a high bit unless it is the
      last one. */
  lemma {:induction false} VarDigit(v: nat, k: nat)
    requires k < |VarEncode(v)|
    ensures VarEncode(v)[k] == v / Lift(1, k) % 0x80 + if k + 1 < |VarEncode(v)| then 0x80 else 0
  {
    if v >= 0x80 && k > 0 {
      VarDigit(v / 0x80, k - 1);
      DivLift(v, k - 1);
      assert VarEncode(v)[k] == VarEncode(v / 0x80)[k - 1];
    }
  }

  lemma DivLift(v: nat, k: nat)
    ensures v / 0x80 / Lift(1, k) == v / Lift(1, k + 1)
  {
    var w, q := Lift(1, k), v / 0x80 / Lift(1, k);
    var rest := v - 0x80 * w * q;
    assert v / 0x80 == q * w + v / 0x80 % w;
    assert 0 <= rest < 0x80 * w && v == (0x80 * w) * q + rest;
    QuotientIs(v, 0x80 * w, q, rest);
  }

  lemma {:induction false} EncodeLength(v: nat, k: nat)
    requires k >= 1 && v < Lift(1, k)
    ensures |VarEncode(v)| <= k
  {
    if v >= 0x80 {
      assert Lift(1, k) == 0x80 * Lift(1, k - 1);
      EncodeLength(v / 0x80, k - 1);
    }
  }

  lemma EncodeAtMostTen(v: u64)
    ensures |VarEncode(v)| <= VARINT_MAX
  {
    LiftNine(1);
    assert Lift(1, 10) == 0x80 * Lift(1, 9);
    EncodeLength(v, VARINT_MAX);
  }

  lemma {:induction false} VarEndAt(s: bytes, p: nat, q: nat, limit: nat)
    requires p < q <= |s| && q <= limit
    requires forall k :: p <= k < q - 1 ==> s[k] >= 0x80
    requires s[q - 1] < 0x80
    ensures VarEnd(s, p, limit) == Some(q)
    decreases limit - p
  {
    if p + 1 < q { VarEndAt(s, p + 1, q, limit); }
  }

  /** Decoding an encoding, wherever it occurs and whatever surrounds it. */
  lemma VarRoundTrip(s: bytes, p: nat, v: u64)
    requires At(s, p, VarEncode(v))
    ensures VarAt(s, p) == Some((v, p + |VarEncode(v)|))
  {
    hide Groups, VarEncode;
    VarEndOfEncoding(s, p, v);
    VarMeaning(v);
  }

  lemma VarEndOfEncoding(s: bytes, p: nat, v: u64)
    requires At(s, p, VarEncode(v))
    ensures VarEnd(s, p, p + VARINT_MAX) == Some(p + |VarEncode(v)|)
  {
    var e := VarEncode(v);
    var q := p + |e|;
    assert |e| <= VARINT_MAX by { EncodeAtMostTen(v); }
    forall k | p <= k < q ensures s[k] == e[k - p] { assert s[p..q][k - p] == e[k - p]; }
    assert s[q - 1] < 0x80 && forall k :: p <= k < q - 1 ==> s[k] >= 0x80 by { VarMeaning(v); }
    VarEndAt(s, p, q, p + VARINT_MAX);
  }

  /** Ten bytes with continuation bits, or the end of the input among them, are no varint. */
  lemma {:induction false} VarTooLong(s: bytes, p: nat, limit: nat)
    requires forall k :: p <= k < limit && k < |s| ==> s[k] >= 0x80
    ensures VarEnd(s, p, limit) == None && (limit == p + 10 ==> VarAt(s, p) == None)
    decreases limit - p
  { if p < limit && p < |s| { VarTooLong(s, p + 1, limit); } }

  /** What a varint reads depends on its own bytes only. */
  lemma VarStable(s: bytes, t: bytes, p: nat)
    requires VarAt(s, p).Some?
    requires |t| >= VarAt(s, p).value.1 && t[..VarAt(s, p).value.1] == s[..VarAt(s, p).value.1]
    ensures VarAt(t, p) == VarAt(s, p)
  {
    var q := VarAt(s, p).value.1;
    forall k | 0 <= k < q ensures t[k] == s[k] { assert t[..q][k] == s[..q][k]; }
    VarEndAt(t, p, q, p + VARINT_MAX);
    assert t[p..q] == s[p..q];
  }

  /** No accepted form of a value is shorter than the encoder's. */
  lemma EncoderIsShortest(s: bytes, p: nat)
    requires VarAt(s, p).Some?
    ensures var (v, q) := VarAt(s, p).value; |VarEncode(v)| <= q - p
  {
    var (v, q) := VarAt(s, p).value;
    GroupsBound(s[p..q]);
    EncodeLength(v, q - p);
  }

  /** The accepted form s[p..q] has no superfluous last group and no bits beyond the 64th. */
  predicate VarMinimal(s: bytes, p: nat, q: nat)
    requires p < q <= |s|
  {
    (q == p + 1 || s[q - 1] != 0) && (q == p + VARINT_MAX ==> s[q - 1] <= 1)
  }

  lemma {:induction false} EncodeGroups(b: bytes)
    requires b != [] && b[|b| - 1] < 0x80
    requires forall k :: 0 <= k < |b| - 1 ==> b[k] >= 0x80
    requires |b| == 1 || b[|b| - 1] != 0
    ensures VarEncode(Groups(b)) == b
    ensures Groups(b) == 0 ==> |b| == 1
  {
    if |b| == 1 {
      assert b[1..] == [];
    } else {
      EncodeGroups(b[1..]);
      assert Groups(b[1..]) >= 1;
      assert b == [b[0]] + b[1..];
    }
  }

  lemma FewGroups(b: bytes)
    requires |b| < VARINT_MAX
    ensures Groups(b) < TWO63
  {
    GroupsBound(b);
    LiftMono(1, 1, |b|, 9);
    LiftNine(1);
  }

  /** Only a tenth group above 1 carries bits beyond the 64th. */
  lemma TopGroup(b: bytes)
    requires 1 <= |b| <= VARINT_MAX && b[|b| - 1] < 0x80
    ensures Groups(b) < TWO64 <==> (|b| == VARINT_MAX ==> b[|b| - 1] <= 1)
  {
    if |b| < VARINT_MAX {
      FewGroups(b);
    } else {
      var init := b[..VARINT_MAX - 1];
      assert b == init + [b[VARINT_MAX - 1]];
      GroupsAppend(init, b[VARINT_MAX - 1]);
      FewGroups(init);
      LiftNine(b[VARINT_MAX - 1]);
    }
  }

  /** Re-encoding what was read gives the same bytes exactly when those bytes are minimal:
      the decoder also accepts padded forms and drops bits beyond the 64th. */
  lemma VarReencode(s: bytes, p: nat)
    requires VarAt(s, p).Some?
    ensures var (v, q) := VarAt(s, p).value; VarEncode(v) == s[p..q] <==> VarMinimal(s, p, q)
  {
    hide Groups, VarEncode;
    var (v, q) := VarAt(s, p).value;
    var b := s[p..q];
    TopGroup(b);
    if VarMinimal(s, p, q) { EncodeGroups(b); }
    if VarEncode(v) == b { VarMeaning(v); }
  }

  /** The two families that re-encoding changes: a padded 0, and a tenth group whose bits are dropped. */
  lemma VarNotMinimalExamples()
    ensures VarAt([0x80, 0x00], 0) == Some((0, 2)) && VarEncode(0) != [0x80, 0x00]
    ensures forall z: bytes :: |z| == 9 && (forall k :: 0 <= k < 9 ==> z[k] == 0x80) ==>
              VarAt(z + [0x02], 0) == Some((0, 10)) && VarEncode(0) != z + [0x02]
  {
    var s: bytes := [0x80, 0x00];
    VarEndAt(s, 0, 2, VARINT_MAX);
    assert s[0..2] == s && s[1..] == [0x00] && s[1..][1..] == [];
    forall z: bytes | |z| == 9 && (forall k :: 0 <= k < 9 ==> z[k] == 0x80)
      ensures VarAt(z + [0x02], 0) == Some((0, 10))
    {
      DroppedBits(z);
    }
  }

  lemma DroppedBits(z: bytes)
    requires |z| == 9 && forall k :: 0 <= k < 9 ==> z[k] == 0x80
    ensures VarAt(z + [0x02], 0) == Some((0, 10))
  {
    var b := z + [0x02];
    VarEndAt(b, 0, 10, VARINT_MAX);
    assert b[0..10] == b;
    GroupsAppend(z, 0x02);
    AllPadding(z);
    LiftNine(2);
  }

  lemma {:induction false} AllPadding(z: bytes)
    requires forall k :: 0 <= k < |z| ==> z[k] == 0x80
    ensures Groups(z) == 0
  { if z != [] { AllPadding(z[1..]); } }

  // ---------------------------------------------------------------- length-delimited bytes

  function LdEncode(b: bytes): (e: bytes)
    ensures |e| > |b|
  { VarEncode(|b|) + b }

  function SliceAt(s: bytes, p: nat, n: nat): (r: Option<(bytes, nat)>)
    ensures r.Some? ==> r.value.1 == p + n <= |s| && |r.value.0| == n
  { if p + n <= |s| then Some((s[p..p + n], p + n)) else None }

  function LdAt(s: bytes, p: nat): (r: Option<(bytes, nat)>)
    ensures r.Some? ==> p < r.value.1 <= |s| && |r.value.0| < TWO64
    ensures r.Some? ==> VarAt(s, p).Some? && VarAt(s, p).value.1 <= r.value.1
  {
    var (n, q) :- VarAt(s, p);
    SliceAt(s, q, n)
  }

  lemma LdRoundTrip(s: bytes, p: nat, b: bytes)
    requires |b| < TWO64 && At(s, p, LdEncode(b))
    ensures LdAt(s, p) == Some((b, p + |LdEncode(b)|))
  {
    AtSplit(s, p, VarEncode(|b|), b);
    VarRoundTrip(s, p, |b|);
  }

  lemma LdStable(s: bytes, t: bytes, p: nat)
    requires LdAt(s, p).Some?
    requires |t| >= LdAt(s, p).value.1 && t[..LdAt(s, p).value.1] == s[..LdAt(s, p).value.1]
    ensures LdAt(t, p) == LdAt(s, p)
  {
    var (n, q) := VarAt(s, p).value;
    var e := q + n;
    assert t[..q] == t[..e][..q] == s[..e][..q] == s[..q];
    VarStable(s, t, p);
    assert t[q..e] == t[..e][q..] == s[..e][q..] == s[q..e];
  }

  /** The bytes read at p are the encoder's, exactly when the length prefix is minimal. */
  lemma LdReencode(s: bytes, p: nat)
    requires LdAt(s, p).Some?
    ensures var (b, e) := LdAt(s, p).value; var q := VarAt(s, p).value.1;
            LdEncode(b) == s[p..e] <==> VarMinimal(s, p, q)
  {
    var (n, q) := VarAt(s, p).value;
    var (b, e) := LdAt(s, p).value;
    VarReencode(s, p);
    assert s[p..e] == s[p..q] + b;
    if LdEncode(b) == s[p..e] {
      assert At(s, p, LdEncode(b));
      AtSplit(s, p, VarEncode(n), b);
      VarRoundTrip(s, p, n);
    }
  }
}
