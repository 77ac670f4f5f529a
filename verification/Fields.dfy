/** Sequences of typed fields. The three binary formats are such sequences behind a magic number,
    so round trips, prefix freedom and re-encoding are proved here once, by induction on the fields. */
module Fields {
  import opened Base
  import opened Codec

  datatype Field = Var | Ld | Fixed(n: nat)
  datatype Value = Num(n: u64) | Blob(b: bytes) | Raw(b: bytes)

  function Kind(v: Value): Field {
    match v
    case Num(_) => Var
    case Blob(_) => Ld
    case Raw(b) => Fixed(|b|)
  }

  /** Lengths are size_t values. */
  predicate Storable(v: Value) { v.Blob? ==> |v.b| < TWO64 }

  function EncodeValue(v: Value): bytes {
    match v
    case Num(n) => VarEncode(n)
    case Blob(b) => LdEncode(b)
    case Raw(b) => b
  }

  function ValueAt(s: bytes, p: nat, f: Field): (r: Option<(Value, nat)>)
    ensures r.Some? && p <= |s| ==> p <= r.value.1 <= |s|
    ensures r.Some? ==> Kind(r.value.0) == f && Storable(r.value.0)
  {
    match f
    case Var => var (n, q) :- VarAt(s, p); Some((Num(n), q))
    case Ld => var (b, q) :- LdAt(s, p); Some((Blob(b), q))
    case Fixed(n) => var (b, q) :- SliceAt(s, p, n); Some((Raw(b), q))
  }

  lemma ValueRoundTrip(s: bytes, p: nat, v: Value)
    requires Storable(v) && At(s, p, EncodeValue(v))
    ensures ValueAt(s, p, Kind(v)) == Some((v, p + |EncodeValue(v)|))
  {
    hide VarAt, LdAt, VarEncode, LdEncode;
    match v
    case Num(n) => VarRoundTrip(s, p, n);
    case Blob(b) => LdRoundTrip(s, p, b);
    case Raw(b) =>
  }

  lemma ValueStable(s: bytes, t: bytes, p: nat, f: Field)
    requires p <= |s| && ValueAt(s, p, f).Some?
    requires |t| >= ValueAt(s, p, f).value.1 && t[..ValueAt(s, p, f).value.1] == s[..ValueAt(s, p, f).value.1]
    ensures ValueAt(t, p, f) == ValueAt(s, p, f)
  {
    hide VarAt, LdAt;
    match f
    case Var => VarStable(s, t, p);
    case Ld => LdStable(s, t, p);
    case Fixed(n) => assert s[p..p + n] == s[..p + n][p..] == t[..p + n][p..] == t[p..p + n];
  }

  /** The varint at p, if the field has one, is in its shortest form. */
  predicate MinimalAt(s: bytes, p: nat, f: Field)
    requires ValueAt(s, p, f).Some?
  { f.Fixed? || VarMinimal(s, p, VarAt(s, p).value.1) }

  lemma ValueReencode(s: bytes, p: nat, f: Field)
    requires p <= |s| && ValueAt(s, p, f).Some?
    ensures var (v, q) := ValueAt(s, p, f).value; EncodeValue(v) == s[p..q] <==> MinimalAt(s, p, f)
  {
    hide VarAt, LdAt, VarEncode, LdEncode, VarMinimal;
    match f
    case Var => VarReencode(s, p);
    case Ld => LdReencode(s, p);
    case Fixed(n) =>
  }

  // ---------------------------------------------------------------- sequences of fields

  function EncodeAll(vs: seq<Value>): bytes
  { if vs == [] then [] else EncodeValue(vs[0]) + EncodeAll(vs[1..]) }

  function Kinds(vs: seq<Value>): (fs: seq<Field>)
    ensures |fs| == |vs| && forall i :: 0 <= i < |vs| ==> fs[i] == Kind(vs[i])
  { seq(|vs|, i requires 0 <= i < |vs| => Kind(vs[i])) }

  predicate AllStorable(vs: seq<Value>) { forall i :: 0 <= i < |vs| ==> Storable(vs[i]) }

  function ParseAll(s: bytes, p: nat, fs: seq<Field>): (r: Option<(seq<Value>, nat)>)
    requires p <= |s|
    ensures r.Some? ==> p <= r.value.1 <= |s| && |r.value.0| == |fs|
    ensures r.Some? ==> AllStorable(r.value.0) && forall i :: 0 <= i < |fs| ==> Kind(r.value.0[i]) == fs[i]
    decreases |fs|
  {
    if fs == [] then Some(([], p)) else
    var (v, q) :- (hide VarAt, LdAt, SliceAt; ValueAt(s, p, fs[0]));
    var (vs, e) :- ParseAll(s, q, fs[1..]);
    Some(([v] + vs, e))
  }

  lemma {:induction false} AllRoundTrip(s: bytes, p: nat, vs: seq<Value>)
    requires AllStorable(vs) && At(s, p, EncodeAll(vs))
    ensures ParseAll(s, p, Kinds(vs)) == Some((vs, p + |EncodeAll(vs)|))
    decreases |vs|
  {
    hide ValueAt, EncodeValue, Storable;
    if vs != [] {
      AtSplit(s, p, EncodeValue(vs[0]), EncodeAll(vs[1..]));
      ValueRoundTrip(s, p, vs[0]);
      AllRoundTrip(s, p + |EncodeValue(vs[0])|, vs[1..]);
      assert Kinds(vs)[1..] == Kinds(vs[1..]);
      assert [vs[0]] + vs[1..] == vs;
    }
  }

  /** Parsing looks only at the bytes it consumes. */
  lemma {:induction false} AllStable(s: bytes, t: bytes, p: nat, fs: seq<Field>)
    requires p <= |s| && ParseAll(s, p, fs).Some?
    requires |t| >= ParseAll(s, p, fs).value.1 && t[..ParseAll(s, p, fs).value.1] == s[..ParseAll(s, p, fs).value.1]
    ensures p <= |t| && ParseAll(t, p, fs) == ParseAll(s, p, fs)
    decreases |fs|
  {
    hide ValueAt;
    if fs != [] {
      var e := ParseAll(s, p, fs).value.1;
      var q := ValueAt(s, p, fs[0]).value.1;
      assert s[..q] == s[..e][..q] == t[..e][..q] == t[..q];
      ValueStable(s, t, p, fs[0]);
      AllStable(s, t, q, fs[1..]);
    }
  }

  predicate AllMinimal(s: bytes, p: nat, fs: seq<Field>)
    requires p <= |s| && ParseAll(s, p, fs).Some?
    decreases |fs|
  {
    fs == [] || (MinimalAt(s, p, fs[0]) && AllMinimal(s, ValueAt(s, p, fs[0]).value.1, fs[1..]))
  }

  /** Re-encoding the parsed fields gives back their bytes exactly when every varint was minimal. */
  lemma {:induction false} AllReencode(s: bytes, p: nat, fs: seq<Field>)
    requires p <= |s| && ParseAll(s, p, fs).Some?
    ensures var (vs, e) := ParseAll(s, p, fs).value; EncodeAll(vs) == s[p..e] <==> AllMinimal(s, p, fs)
    decreases |fs|
  {
    hide ValueAt, EncodeValue, MinimalAt, Storable;
    if fs != [] {
      var (vs, e) := ParseAll(s, p, fs).value;
      var (v, q) := ValueAt(s, p, fs[0]).value;
      assert vs[0] == v && vs[1..] == ParseAll(s, q, fs[1..]).value.0;
      ValueReencode(s, p, fs[0]);
      AllReencode(s, q, fs[1..]);
      assert s[p..e] == s[p..q] + s[q..e];
      if EncodeAll(vs) == s[p..e] {
        assert At(s, p, EncodeValue(v) + EncodeAll(vs[1..]));
        AtSplit(s, p, EncodeValue(v), EncodeAll(vs[1..]));
        ValueRoundTrip(s, p, v);
      }
    }
  }

  function ValueBound(v: Value): nat {
    match v
    case Num(_) => VARINT_MAX
    case Blob(b) => VARINT_MAX + |b|
    case Raw(b) => |b|
  }

  function Bound(vs: seq<Value>): nat { if vs == [] then 0 else ValueBound(vs[0]) + Bound(vs[1..]) }

  lemma {:induction false} AllSize(vs: seq<Value>)
    requires AllStorable(vs)
    ensures |EncodeAll(vs)| <= Bound(vs)
  {
    hide VarEncode;
    if vs != [] {
      if vs[0].Num? { EncodeAtMostTen(vs[0].n); }
      if vs[0].Blob? { EncodeAtMostTen(|vs[0].b|); }
      AllSize(vs[1..]);
    }
  }

  lemma Regroup(x: bytes, y: bytes, z: bytes)
    ensures x + (y + z) == (x + y) + z
  { }

  lemma NoFields()
    ensures EncodeAll([]) == []
  { }

  lemma EncodeCons(vs: seq<Value>)
    requires vs != []
    ensures EncodeAll(vs) == EncodeValue(vs[0]) + EncodeAll(vs[1..])
  { hide EncodeValue; }

  lemma {:induction false} EncodeAppend(a: seq<Value>, b: seq<Value>)
    ensures EncodeAll(a + b) == EncodeAll(a) + EncodeAll(b)
  {
    hide EncodeValue;
    if a == [] {
      assert a + b == b;
    } else {
      EncodeAppend(a[1..], b);
      var ab := a + b;
      assert ab[0] == a[0] && ab[1..] == a[1..] + b;
      EncodeCons(ab);
      EncodeCons(a);
      Regroup(EncodeValue(a[0]), EncodeAll(a[1..]), EncodeAll(b));
      hide EncodeAll;
    }
  }

  lemma {:induction false} ParseAppend(s: bytes, p: nat, a: seq<Field>, b: seq<Field>)
    requires p <= |s|
    ensures ParseAll(s, p, a + b) ==
            match ParseAll(s, p, a)
            case None => None
            case Some((vs, q)) =>
              match ParseAll(s, q, b)
              case None => None
              case Some((ws, e)) => Some((vs + ws, e))
    decreases |a|
  {
    hide ValueAt, Storable;
    if a == [] {
      assert a + b == b;
      if ParseAll(s, p, b).Some? { assert [] + ParseAll(s, p, b).value.0 == ParseAll(s, p, b).value.0; }
    } else {
      assert (a + b)[1..] == a[1..] + b && (a + b)[0] == a[0];
      var r := ValueAt(s, p, a[0]);
      if r.Some? {
        var (v, q) := r.value;
        ParseAppend(s, q, a[1..], b);
        var tail := ParseAll(s, q, a[1..]);
        if tail.Some? && ParseAll(s, tail.value.1, b).Some? {
          var vs, ws := tail.value.0, ParseAll(s, tail.value.1, b).value.0;
          assert [v] + (vs + ws) == ([v] + vs) + ws;
        }
      }
    }
  }

  // ---------------------------------------------------------------- one field at a time

  /** The first k values have been written behind head. */
  ghost predicate Written(out: bytes, head: bytes, vs: seq<Value>, k: nat) {
    k <= |vs| && out == head + EncodeAll(vs[..k])
  }

  lemma WriteStart(head: bytes, vs: seq<Value>)
    ensures Written(head, head, vs, 0)
  { assert vs[..0] == []; }

  lemma WriteStep(out: bytes, head: bytes, vs: seq<Value>, k: nat, e: bytes)
    requires Written(out, head, vs, k) && k < |vs| && e == EncodeValue(vs[k])
    ensures Written(out + e, head, vs, k + 1)
    ensures |out| + |e| <= |head| + |EncodeAll(vs)|
  {
    hide EncodeValue;
    assert vs[..k + 1] == vs[..k] + [vs[k]];
    EncodeAppend(vs[..k], [vs[k]]);
    assert EncodeAll([vs[k]]) == EncodeValue(vs[k]) + EncodeAll([vs[k]][1..]);
    assert vs == vs[..k + 1] + vs[k + 1..];
    EncodeAppend(vs[..k + 1], vs[k + 1..]);
  }

  lemma WriteDone(out: bytes, head: bytes, vs: seq<Value>)
    requires Written(out, head, vs, |vs|)
    ensures out == head + EncodeAll(vs)
  { assert vs[..|vs|] == vs; }

  /** The first |vs| fields have been read, up to position q. */
  ghost predicate Progress(s: bytes, p: nat, fs: seq<Field>, vs: seq<Value>, q: nat) {
    p <= |s| && |vs| <= |fs| && ParseAll(s, p, fs[..|vs|]) == Some((vs, q))
  }

  lemma ProgressStart(s: bytes, p: nat, fs: seq<Field>)
    requires p <= |s|
    ensures Progress(s, p, fs, [], p)
  { assert fs[..0] == []; }

  lemma SingleField(s: bytes, p: nat, f: Field)
    requires p <= |s|
    ensures ParseAll(s, p, [f]) == match ValueAt(s, p, f) case Some((v, e)) => Some(([v], e)) case None => None
  {
    hide ValueAt;
    assert [f][0] == f && [f][1..] == [];
    var r := ValueAt(s, p, f);
    if r.Some? { assert ParseAll(s, r.value.1, [f][1..]) == Some(([], r.value.1)) && [r.value.0] + [] == [r.value.0]; }
  }

  /** Reading one more field, or failing to. */
  lemma ProgressStep(s: bytes, p: nat, fs: seq<Field>, vs: seq<Value>, q: nat)
    requires Progress(s, p, fs, vs, q) && |vs| < |fs|
    ensures match ValueAt(s, q, fs[|vs|])
            case Some((v, e)) => Progress(s, p, fs, vs + [v], e)
            case None => ParseAll(s, p, fs).None?
  {
    hide ValueAt;
    var k := |vs|;
    assert fs[..k + 1] == fs[..k] + [fs[k]];
    assert fs == fs[..k + 1] + fs[k + 1..];
    ParseAppend(s, p, fs[..k], [fs[k]]);
    ParseAppend(s, p, fs[..k + 1], fs[k + 1..]);
    SingleField(s, q, fs[k]);
  }

  lemma ProgressDone(s: bytes, p: nat, fs: seq<Field>, vs: seq<Value>, q: nat)
    requires Progress(s, p, fs, vs, q) && |vs| == |fs|
    ensures ParseAll(s, p, fs) == Some((vs, q))
  { assert fs[..|vs|] == fs; }
}
