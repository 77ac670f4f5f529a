/** The VCR1 record format (src/model/record.c). */
module RecordFormat {
  import opened Base
  import opened Codec
  import opened Buffers
  import opened Fields

  const MAGIC: bytes := [0x56, 0x43, 0x52, 0x31] // "VCR1"

  datatype Meta = Meta(ns: bytes, schema: bytes, author: Bytes32, seqNo: u64, timestamp: u64)
  datatype Record = Record(meta: Meta, payload: bytes, sig: Option<Bytes64>)

  /** Slice lengths are size_t values. */
  predicate Encodable(r: Record) {
    |r.meta.ns| < TWO64 && |r.meta.schema| < TWO64 && |r.payload| < TWO64
  }

  function FlagByte(sig: Option<Bytes64>): byte { if sig.Some? then 1 else 0 }

  /** The fields behind magic and flags; the signature is there when the low flag bit is. */
  function Layout(signed: bool): seq<Field> {
    [Ld, Ld, Fixed(32), Var, Var, Ld] + if signed then [Fixed(64)] else []
  }

  function Values(r: Record): (vs: seq<Value>)
    ensures Kinds(vs) == Layout(r.sig.Some?)
  {
    [Blob(r.meta.ns), Blob(r.meta.schema), Raw(r.meta.author),
     Num(r.meta.seqNo), Num(r.meta.timestamp), Blob(r.payload)]
    + if r.sig.Some? then [Raw(r.sig.value)] else []
  }

  function FromValues(vs: seq<Value>, signed: bool): (r: Record)
    requires Kinds(vs) == Layout(signed)
    ensures Values(r) == vs && r.sig.Some? == signed
  {
    assert forall i :: 0 <= i < |vs| ==> Kind(vs[i]) == Layout(signed)[i];
    Record(Meta(vs[0].b, vs[1].b, vs[2].b, vs[3].n, vs[4].n), vs[5].b, if signed then Some(vs[6].b) else None)
  }

  function Encode(r: Record): (s: bytes)
    ensures |s| >= 5 && s[..4] == MAGIC && s[4] == FlagByte(r.sig) && s[5..] == EncodeAll(Values(r))
  { MAGIC + [FlagByte(r.sig)] + EncodeAll(Values(r)) }

  /** None stands for the format error; bytes after the last field are one. */
  function Decode(s: bytes): (r: Option<Record>) {
    if |s| < 5 || s[..4] != MAGIC then None else
    var (vs, q) :- ParseAll(s, 5, Layout(s[4] % 2 == 1));
    if q == |s| then Some(FromValues(vs, s[4] % 2 == 1)) else None
  }

  lemma ValuesInjective(r: Record, r': Record)
    requires Values(r) == Values(r')
    ensures r == r'
  {
    var vs := Values(r);
    var ws := Values(r');
    assert vs[0] == ws[0] && vs[1] == ws[1] && vs[2] == ws[2] && vs[3] == ws[3] && vs[4] == ws[4] && vs[5] == ws[5];
    assert |vs| == 7 ==> vs[6] == ws[6];
  }

  /** The encoding, byte string by byte string. */
  lemma EncodedBytes(r: Record)
    ensures var sig: bytes := if r.sig.Some? then r.sig.value else [];
            var author: bytes := r.meta.author;
            Encode(r) == [0x56, 0x43, 0x52, 0x31] + [if r.sig.Some? then 1 else 0]
              + (LdEncode(r.meta.ns) + (LdEncode(r.meta.schema) + (author + (VarEncode(r.meta.seqNo)
              + (VarEncode(r.meta.timestamp) + (LdEncode(r.payload) + sig))))))
  {
    hide VarEncode, LdEncode, EncodeAll;
    var m := r.meta;
    var v6: seq<Value> := if r.sig.Some? then [Raw(r.sig.value)] else [];
    SigBytes(r.sig, v6);
    var v5: seq<Value> := [Blob(r.payload)] + v6;
    ConsBytes(Blob(r.payload), v6);
    var v4: seq<Value> := [Num(m.timestamp)] + v5;
    ConsBytes(Num(m.timestamp), v5);
    var v3: seq<Value> := [Num(m.seqNo)] + v4;
    ConsBytes(Num(m.seqNo), v4);
    var v2: seq<Value> := [Raw(m.author)] + v3;
    ConsBytes(Raw(m.author), v3);
    var v1: seq<Value> := [Blob(m.schema)] + v2;
    ConsBytes(Blob(m.schema), v2);
    ConsBytes(Blob(m.ns), v1);
    assert Values(r) == [Blob(m.ns)] + v1;
  }

  lemma SigBytes(sig: Option<Bytes64>, vs: seq<Value>)
    requires vs == if sig.Some? then [Raw(sig.value)] else []
    ensures EncodeAll(vs) == if sig.Some? then sig.value else []
  {
    hide EncodeAll;
    NoFields();
    if sig.Some? {
      EncodeCons(vs);
      assert vs[1..] == [];
    }
  }

  lemma ConsBytes(v: Value, rest: seq<Value>)
    ensures EncodeAll([v] + rest) == EncodeValue(v) + EncodeAll(rest)
  {
    hide EncodeValue, EncodeAll;
    EncodeCons([v] + rest);
    assert ([v] + rest)[1..] == rest;
  }

  lemma RoundTrip(r: Record)
    requires Encodable(r)
    ensures Decode(Encode(r)) == Some(r)
  {
    hide Encode, ParseAll, EncodeAll;
    var s := Encode(r);
    assert At(s, 5, EncodeAll(Values(r)));
    AllRoundTrip(s, 5, Values(r));
    hide Values, Layout, FromValues;
    ValuesInjective(r, FromValues(Values(r), r.sig.Some?));
  }

  /** Undefined flag bits are accepted and lost: every record has byte strings that decode to it and that its
      encoding does not give back. */
  lemma FlagBitsIgnored(r: Record, flags: byte)
    requires Encodable(r) && flags % 2 == FlagByte(r.sig) && flags != FlagByte(r.sig)
    ensures var s := Encode(r)[4 := flags]; Decode(s) == Some(r) && Encode(r) != s
  {
    hide Encode, ParseAll, EncodeAll;
    var s := Encode(r)[4 := flags];
    assert s[..4] == Encode(r)[..4] && s[5..] == Encode(r)[5..] && s[4] == flags;
    assert At(s, 5, EncodeAll(Values(r)));
    AllRoundTrip(s, 5, Values(r));
    hide Values, Layout, FromValues;
    ValuesInjective(r, FromValues(Values(r), r.sig.Some?));
  }

  lemma PrefixFree(s: bytes, t: bytes)
    requires Decode(s).Some? && Decode(t).Some? && s <= t
    ensures s == t
  {
    hide FromValues;
    assert s[..4] == t[..4] && s[4] == t[4] && t[..|s|] == s[..|s|];
    AllStable(s, t, 5, Layout(s[4] % 2 == 1));
  }

  lemma EncodedSize(r: Record)
    requires Encodable(r)
    ensures |Encode(r)| <= 151 + |r.meta.ns| + |r.meta.schema| + |r.payload|
  {
    hide EncodeAll, Encode;
    AllSize(Values(r));
    var m := r.meta;
    var tail: seq<Value> := if r.sig.Some? then [Raw(r.sig.value)] else [];
    assert Bound(tail) <= 64 by { assert tail != [] ==> tail[1..] == []; }
    var v5: seq<Value> := [Blob(r.payload)] + tail;
    var v4: seq<Value> := [Num(m.timestamp)] + v5;
    var v3: seq<Value> := [Num(m.seqNo)] + v4;
    var v2: seq<Value> := [Raw(m.author)] + v3;
    var v1: seq<Value> := [Blob(m.schema)] + v2;
    BoundCons(Blob(r.payload), tail);
    BoundCons(Num(m.timestamp), v5);
    BoundCons(Num(m.seqNo), v4);
    BoundCons(Raw(m.author), v3);
    BoundCons(Blob(m.schema), v2);
    BoundCons(Blob(m.ns), v1);
    assert Values(r) == [Blob(m.ns)] + v1;
  }

  lemma BoundCons(v: Value, rest: seq<Value>)
    ensures Bound([v] + rest) == ValueBound(v) + Bound(rest)
  { assert ([v] + rest)[1..] == rest; }

  /** Only the defined flag bit is used and every varint is minimal. */
  predicate Canonical(s: bytes)
    requires Decode(s).Some?
  { s[4] <= 1 && AllMinimal(s, 5, Layout(s[4] % 2 == 1)) }

  /** encode(decode(s)) gives s back exactly on canonical bytes; the decoder accepts more than those. */
  lemma Reencode(s: bytes)
    requires Decode(s).Some?
    ensures Encode(Decode(s).value) == s <==> Canonical(s)
  {
    hide AllMinimal, ParseAll, EncodeAll, Encode, Layout, Values, FromValues;
    var signed := s[4] % 2 == 1;
    var r := Decode(s).value;
    AllReencode(s, 5, Layout(signed));
    assert Values(r) == ParseAll(s, 5, Layout(signed)).value.0;
    assert s == s[..4] + [s[4]] + s[5..];
    assert Encode(r) == Encode(r)[..4] + [Encode(r)[4]] + Encode(r)[5..];
  }

  // ---------------------------------------------------------------- the code

  lemma ValueList(r: Record)
    ensures var vs := Values(r);
            && |vs| == (if r.sig.Some? then 7 else 6) && (r.sig.Some? ==> vs[6] == Raw(r.sig.value))
            && vs[0] == Blob(r.meta.ns) && vs[1] == Blob(r.meta.schema) && vs[2] == Raw(r.meta.author)
            && vs[3] == Num(r.meta.seqNo) && vs[4] == Num(r.meta.timestamp) && vs[5] == Blob(r.payload)
  { }

  method PutMeta(w: WriteBuffer, r: Record) returns (st: Status)
    requires w.Valid() && |Encode(r)| + VARINT_MAX < TWO64
    requires w.data == MAGIC + [FlagByte(r.sig)]
    modifies w
    ensures w.Valid() && (st == Ok || st == OutOfMemory)
    ensures st == Ok ==> Written(w.data, MAGIC + [FlagByte(r.sig)], Values(r), 5)
    ensures old(w.grants).None? ==> w.grants.None? && (|Encode(r)| + VARINT_MAX <= TWO63 ==> st == Ok)
  {
    hide EncodeAll, VarEncode, Written, Values;
    ghost var head, vs := w.data, Values(r);
    ValueList(r);
    WriteStart(head, vs);
    WriteStep(w.data, head, vs, 0, LdEncode(r.meta.ns));
    st := w.PutLd(r.meta.ns); if st != Ok { return; }
    WriteStep(w.data, head, vs, 1, LdEncode(r.meta.schema));
    st := w.PutLd(r.meta.schema); if st != Ok { return; }
    WriteStep(w.data, head, vs, 2, r.meta.author);
    st := w.PutBytes(r.meta.author); if st != Ok { return; }
    WriteStep(w.data, head, vs, 3, VarEncode(r.meta.seqNo));
    st := w.PutVar(r.meta.seqNo); if st != Ok { return; }
    WriteStep(w.data, head, vs, 4, VarEncode(r.meta.timestamp));
    st := w.PutVar(r.meta.timestamp);
  }

  /** grants is the number of reallocations that succeed before one fails, if one does. */
  method EncodeRecord(r: Record, grants: Option<nat>) returns (st: Status, out: bytes)
    requires |Encode(r)| + VARINT_MAX < TWO64
    ensures st == Ok || st == OutOfMemory
    ensures st == Ok ==> out == Encode(r)
    ensures grants.None? && |Encode(r)| + VARINT_MAX <= TWO63 ==> st == Ok
  {
    hide EncodeAll, VarEncode, Written, Values;
    ghost var head, vs := MAGIC + [FlagByte(r.sig)], Values(r);
    ValueList(r);
    out := [];
    var w := new WriteBuffer(grants);
    st := w.PutBytes(MAGIC); if st != Ok { return; }
    st := w.PutU8(FlagByte(r.sig)); if st != Ok { return; }
    st := PutMeta(w, r); if st != Ok { return; }
    WriteStep(w.data, head, vs, 5, LdEncode(r.payload));
    st := w.PutLd(r.payload); if st != Ok { return; }
    if r.sig.Some? {
      WriteStep(w.data, head, vs, 6, r.sig.value);
      st := w.PutBytes(r.sig.value); if st != Ok { return; }
    }
    WriteDone(w.data, head, vs);
    out := w.data;
  }

  lemma Assembled(r: Record, vs: seq<Value>)
    requires vs == MetaValues(r.meta) + [Blob(r.payload)] + if r.sig.Some? then [Raw(r.sig.value)] else []
    ensures Kinds(vs) == Layout(r.sig.Some?) && FromValues(vs, r.sig.Some?) == r
  {
    assert vs == Values(r);
    ValuesInjective(r, FromValues(vs, r.sig.Some?));
  }

  ghost function MetaValues(m: Meta): seq<Value> {
    [] + [Blob(m.ns)] + [Blob(m.schema)] + [Raw(m.author)] + [Num(m.seqNo)] + [Num(m.timestamp)]
  }

  lemma LayoutFields(signed: bool)
    ensures var fs := Layout(signed);
            && |fs| == (if signed then 7 else 6) && (signed ==> fs[6] == Fixed(64))
            && fs[0] == Ld && fs[1] == Ld && fs[2] == Fixed(32) && fs[3] == Var && fs[4] == Var && fs[5] == Ld
  { }

  /** The five metadata fields. */
  method GetMeta(rb: ReadBuffer, ghost signed: bool) returns (m: Option<Meta>)
    requires rb.Valid() && rb.pos == 5
    modifies rb
    ensures rb.Valid()
    ensures m.None? ==> ParseAll(rb.data, 5, Layout(signed)).None?
    ensures m.Some? ==> Progress(rb.data, 5, Layout(signed), MetaValues(m.value), rb.pos)
  {
    hide ParseAll, VarAt, LdAt, Progress, Layout;
    ghost var s, fs := rb.data, Layout(signed);
    LayoutFields(signed);
    ProgressStart(s, 5, fs);
    ghost var vs: seq<Value> := [];
    ProgressStep(s, 5, fs, vs, rb.pos);
    var ns := rb.GetLd(); if ns.None? { return None; }
    vs := vs + [Blob(ns.value)];
    ProgressStep(s, 5, fs, vs, rb.pos);
    var schema := rb.GetLd(); if schema.None? { return None; }
    vs := vs + [Blob(schema.value)];
    ProgressStep(s, 5, fs, vs, rb.pos);
    var author := rb.GetBytes(32); if author.None? { return None; }
    vs := vs + [Raw(author.value)];
    ProgressStep(s, 5, fs, vs, rb.pos);
    var seqNo := rb.GetVar(); if seqNo.None? { return None; }
    vs := vs + [Num(seqNo.value)];
    ProgressStep(s, 5, fs, vs, rb.pos);
    var ts := rb.GetVar(); if ts.None? { return None; }
    m := Some(Meta(ns.value, schema.value, author.value, seqNo.value, ts.value));
  }

  method DecodeRecord(encoded: bytes) returns (r: Option<Record>)
    ensures r == Decode(encoded)
  {
    hide ParseAll, VarAt, LdAt, Progress, FromValues, Values, Kinds, Layout, MetaValues;
    if |encoded| < 5 { return None; }
    var rb := new ReadBuffer(encoded);
    var magic := rb.GetBytes(4);
    if magic != Some(MAGIC) { return None; }
    var flags := rb.GetU8();
    var signed := flags.value % 2 == 1;
    ghost var fs := Layout(signed);
    LayoutFields(signed);
    var meta := GetMeta(rb, signed);
    if meta.None? { return None; }
    ghost var vs := MetaValues(meta.value);
    MetaCount(meta.value);
    ProgressStep(encoded, 5, fs, vs, rb.pos);
    var payload := rb.GetLd(); if payload.None? { return None; }
    vs := vs + [Blob(payload.value)];
    var sig: Option<Bytes64> := None;
    if signed {
      ProgressStep(encoded, 5, fs, vs, rb.pos);
      var b := rb.GetBytes(64); if b.None? { return None; }
      vs := vs + [Raw(b.value)];
      sig := Some(b.value);
    }
    ProgressDone(encoded, 5, fs, vs, rb.pos);
    if rb.Remaining() != 0 { return None; }
    r := Some(Record(meta.value, payload.value, sig));
    Assembled(r.value, vs);
  }

  lemma MetaCount(m: Meta)
    ensures |MetaValues(m)| == 5
  { }
}
