/** The growing write buffer and the reader cursor of src/core/codec.c, proved against the
    functions of module Codec. Sizes are 64-bit size_t values. */
module Buffers {
  import opened Base
  import opened Codec

  /** Doubles a capacity, in 64-bit arithmetic, until it holds needed elements. The only failure is
      a product that wraps around, which takes a capacity of 2^63 or more. */
  method GrowCapacity(cap: u64, initial: u64, needed: u64) returns (st: Status, grown: u64)
    requires initial > 0
    ensures st == Ok || st == OutOfMemory
    ensures st == Ok ==> grown >= needed && grown >= cap
    ensures st == Ok ==> grown < 2 * needed || grown == if cap == 0 then initial else cap
    ensures needed <= TWO63 ==> st == Ok
  {
    grown := if cap == 0 then initial else cap;
    while grown < needed
      invariant 0 < grown && grown >= cap
      invariant grown < 2 * needed || grown == if cap == 0 then initial else cap
      decreases TWO64 - grown
    {
      var next := grown * 2 % TWO64;
      if next < grown { return OutOfMemory, cap; }
      grown := next;
    }
    st := Ok;
  }

  /** data holds the len bytes written so far, in an allocation of cap bytes. grants counts the reallocations that
      still succeed before one fails; None when none ever does. */
  class WriteBuffer {
    var data: bytes
    var cap: nat
    var grants: Option<nat>

    ghost predicate Valid()
      reads this
    { |data| <= cap < TWO64 }

    constructor (grants: Option<nat>)
      ensures Valid() && data == [] && this.grants == grants
    {
      data, cap := [], 0;
      this.grants := grants;
    }

    method Reserve(additional: nat) returns (st: Status)
      requires Valid() && |data| + additional < TWO64
      modifies this`cap, this`grants
      ensures Valid() && cap >= old(cap) && (st == Ok || st == OutOfMemory)
      ensures if st == Ok then |data| + additional <= cap else cap == old(cap) && grants == old(grants)
      ensures |data| + additional <= old(cap) ==> st == Ok && cap == old(cap)
      ensures |data| + additional > old(cap) && old(grants) == Some(0) ==> st == OutOfMemory
      ensures |data| + additional <= TWO63 && old(grants) != Some(0) ==> st == Ok
      ensures old(grants).None? ==> grants.None?
    {
      var needed := |data| + additional;
      if needed <= cap { return Ok; }
      var newcap;
      st, newcap := GrowCapacity(cap, 256, needed);
      if st != Ok { return; }
      if grants == Some(0) { return OutOfMemory; }
      if grants.Some? { grants := Some(grants.value - 1); }
      cap := newcap;
    }

    method PutBytes(b: bytes) returns (st: Status)
      requires Valid() && |data| + |b| < TWO64
      modifies this
      ensures Valid() && (st == Ok || st == OutOfMemory)
      ensures if st == Ok then data == old(data) + b else data == old(data)
      ensures old(grants).None? ==> grants.None? && (|old(data)| + |b| <= TWO63 ==> st == Ok)
    {
      if |b| == 0 { return Ok; }
      st := Reserve(|b|);
      if st != Ok { return; }
      data := data + b;
    }

    method PutU8(v: byte) returns (st: Status)
      requires Valid() && |data| + 1 < TWO64
      modifies this
      ensures Valid() && (st == Ok || st == OutOfMemory)
      ensures if st == Ok then data == old(data) + [v] else data == old(data)
      ensures old(grants).None? ==> grants.None? && (|old(data)| + 1 <= TWO63 ==> st == Ok)
    {
      st := Reserve(1);
      if st != Ok { return; }
      data := data + [v];
    }

    /** Little-endian 16-bit value. */
    method PutU16(v: nat) returns (st: Status)
      requires Valid() && |data| + 2 < TWO64 && v < 0x1_0000
      modifies this
      ensures Valid() && (st == Ok || st == OutOfMemory)
      ensures if st == Ok then data == old(data) + U16Encode(v) else data == old(data)
      ensures old(grants).None? ==> grants.None? && (|old(data)| + 2 <= TWO63 ==> st == Ok)
    {
      st := Reserve(2);
      if st != Ok { return; }
      data := data + [v % 0x100];
      data := data + [v / 0x100];
    }

    method PutVar(v: u64) returns (st: Status)
      requires Valid() && |data| + VARINT_MAX < TWO64
      modifies this
      ensures Valid() && (st == Ok || st == OutOfMemory)
      ensures if st == Ok then data == old(data) + VarEncode(v) else data == old(data)
      ensures old(grants).None? ==> grants.None? && (|old(data)| + VARINT_MAX <= TWO63 ==> st == Ok)
    {
      st := Reserve(VARINT_MAX);
      if st != Ok { return; }
      EncodeAtMostTen(v);
      var rest := v;
      while rest >= 0x80
        invariant Valid() && 0 <= rest < TWO64 && st == Ok
        invariant old(grants).None? ==> grants.None?
        invariant |data| + |VarEncode(rest)| <= cap
        invariant data + VarEncode(rest) == old(data) + VarEncode(v)
        decreases rest
      {
        assert data + [rest % 0x80 + 0x80] + VarEncode(rest / 0x80) == data + VarEncode(rest);
        data := data + [rest % 0x80 + 0x80];
        rest := rest / 0x80;
      }
      data := data + [rest];
    }

    /** The length stays behind when there is no memory for the bytes. */
    method PutLd(b: bytes) returns (st: Status)
      requires Valid() && |data| + VARINT_MAX + |b| < TWO64
      modifies this
      ensures Valid() && (st == Ok || st == OutOfMemory)
      ensures if st == Ok then data == old(data) + LdEncode(b) else old(data) <= data
      ensures old(grants).None? ==> grants.None? && (|old(data)| + VARINT_MAX + |b| <= TWO63 ==> st == Ok)
    {
      EncodeAtMostTen(|b|);
      st := PutVar(|b|);
      if st != Ok { return; }
      st := PutBytes(b);
    }
  }

  function U16Encode(v: nat): bytes
    requires v < 0x1_0000
  { [v % 0x100, v / 0x100] }

  /** The low byte comes first. */
  lemma U16Meaning(v: nat)
    requires v < 0x1_0000
    ensures |U16Encode(v)| == 2 && U16Encode(v)[0] as int + 0x100 * U16Encode(v)[1] as int == v
  { }

  function U16Decode(low: byte, high: byte): nat
  { low as int + 0x100 * high as int }

  class ReadBuffer {
    const data: bytes
    var pos: nat

    ghost predicate Valid()
      reads this
    { pos <= |data| }

    constructor (data: bytes)
      ensures Valid() && this.data == data && pos == 0
    {
      this.data := data;
      pos := 0;
    }

    function Remaining(): nat
      reads this
      requires Valid()
    { |data| - pos }

    method GetU8() returns (r: Option<byte>)
      requires Valid()
      modifies this`pos
      ensures Valid()
      ensures r == if old(pos) < |data| then Some(data[old(pos)]) else None
      ensures r.Some? ==> pos == old(pos) + 1
    {
      if Remaining() < 1 { return None; }
      r := Some(data[pos]);
      pos := pos + 1;
    }

    method GetU16() returns (r: Option<nat>)
      requires Valid()
      modifies this`pos
      ensures Valid()
      ensures old(pos) + 2 <= |data| ==> r == Some(U16Decode(data[old(pos)], data[old(pos) + 1])) && pos == old(pos) + 2
      ensures old(pos) + 2 > |data| ==> r == None
    {
      if Remaining() < 2 { return None; }
      r := Some(U16Decode(data[pos], data[pos + 1]));
      pos := pos + 2;
    }

    method GetBytes(n: nat) returns (r: Option<bytes>)
      requires Valid()
      modifies this`pos
      ensures Valid()
      ensures match SliceAt(data, old(pos), n)
              case Some((b, q)) => r == Some(b) && pos == q
              case None => r == None
    {
      if n == 0 { return Some([]); }
      if Remaining() < n { return None; }
      r := Some(data[pos..pos + n]);
      pos := pos + n;
    }

    /** The shift-and-or loop. bits << shift is reduced modulo 2^64; the or of disjoint bit ranges is
        written as a sum. The shift never passes 63, so the code's test for an overflowing tenth byte
        cannot fire and is not repeated here. */
    method GetVar() returns (r: Option<u64>)
      requires Valid()
      modifies this`pos
      ensures Valid()
      ensures match VarAt(data, old(pos))
              case Some((v, q)) => r == Some(v) && pos == q
              case None => r == None
    {
      var result: u64 := 0;
      var shift := 0;
      ghost var p := pos;
      assert Partial(data, p, pos, 0);
      hide Partial, ShiftLeft;
      var i := 0;
      while i < VARINT_MAX
        invariant 0 <= i <= VARINT_MAX && shift == 7 * i && pos == p + i <= |data|
        invariant VarEnd(data, p, p + VARINT_MAX) == VarEnd(data, pos, p + VARINT_MAX)
        invariant i < VARINT_MAX ==> Partial(data, p, pos, result)
      {
        if Remaining() < 1 { return None; }
        var octet := data[pos];
        ReadStep(data, p, pos, result);
        pos := pos + 1;
        result := result + ShiftLeft(octet % 0x80, shift);
        if octet < 0x80 { return Some(result); }
        shift := shift + 7;
        i := i + 1;
      }
      r := None;
    }

    method GetLd() returns (r: Option<bytes>)
      requires Valid()
      modifies this`pos
      ensures Valid()
      ensures match LdAt(data, old(pos))
              case Some((b, q)) => r == Some(b) && pos == q
              case None => r == None
    {
      var n := GetVar();
      if n.None? { return None; }
      r := GetBytes(n.value);
    }
  }

  function Doubled(x: nat, n: nat): nat
  { if n == 0 then x else 2 * Doubled(x, n - 1) }

  /** bits << shift on a 64-bit word. */
  function ShiftLeft(bits: u64, shift: nat): u64
  { Doubled(bits, shift) % TWO64 }

  lemma {:induction false} DoubledIsLift(x: nat, k: nat)
    ensures Doubled(x, 7 * k) == Lift(x, k)
  {
    if k != 0 {
      var n := 7 * k;
      DoubledIsLift(x, k - 1);
      assert Doubled(x, n) == 2 * Doubled(x, n - 1) == 4 * Doubled(x, n - 2) == 8 * Doubled(x, n - 3);
      assert Doubled(x, n - 3) == 2 * Doubled(x, n - 4) == 4 * Doubled(x, n - 5) == 8 * Doubled(x, n - 6);
      assert Doubled(x, n - 6) == 2 * Doubled(x, n - 7);
    }
  }

  /** One round of the varint reader: adding the next group in its place, modulo 2^64, never carries. */
  lemma ShiftStep(b: bytes, octet: byte)
    requires |b| < VARINT_MAX
    ensures Groups(b) + ShiftLeft(octet % 0x80, 7 * |b|) == Groups(b + [octet]) % TWO64
    ensures |b| + 1 < VARINT_MAX ==> Groups(b + [octet]) < TWO64
  {
    hide Groups, Lift, Doubled;
    GroupsAppend(b, octet);
    DoubledIsLift(octet % 0x80, |b|);
    LiftPlaces(b, octet);
    Place(Groups(b), Lift(octet % 0x80, |b|), octet % 0x80);
  }

  lemma LiftPlaces(b: bytes, octet: byte)
    requires |b| < VARINT_MAX
    ensures Groups(b) < TWO63
    ensures |b| + 1 < VARINT_MAX ==> Groups(b) + Lift(octet % 0x80, |b|) < TWO63
    ensures |b| + 1 == VARINT_MAX ==> Lift(octet % 0x80, |b|) == TWO63 * (octet % 0x80)
  {
    FewGroups(b);
    if |b| + 1 < VARINT_MAX {
      GroupsAppend(b, octet);
      FewGroups(b + [octet]);
    } else {
      LiftNine(octet % 0x80);
    }
  }

  lemma Place(low: nat, term: nat, d: nat)
    requires low < TWO63 && (low + term < TWO63 || term == TWO63 * d)
    ensures low + term % TWO64 == (low + term) % TWO64
  {
    if low + term >= TWO63 {
      var k, r := d / 2, d % 2;
      assert term == k * TWO64 + r * TWO63;
      assert term % TWO64 == r * TWO63;
    }
  }

  /** The groups read so far, below the tenth. */
  ghost predicate Partial(s: bytes, p: nat, q: nat, result: nat)
    requires p <= q <= |s|
  { result == Groups(s[p..q]) }

  lemma ReadStep(s: bytes, p: nat, q: nat, result: u64)
    requires p <= q < |s| && q < p + VARINT_MAX && Partial(s, p, q, result)
    ensures var next := result + ShiftLeft(s[q] % 0x80, 7 * (q - p));
            && next < TWO64
            && (q + 1 < p + VARINT_MAX ==> Partial(s, p, q + 1, next))
            && (s[q] < 0x80 && VarEnd(s, p, p + VARINT_MAX) == Some(q + 1) ==> VarAt(s, p) == Some((next, q + 1)))
  {
    hide Groups, ShiftLeft;
    assert s[p..q + 1] == s[p..q] + [s[q]];
    ShiftStep(s[p..q], s[q]);
  }
}
