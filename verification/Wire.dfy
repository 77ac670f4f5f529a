/** The VCP1 message frame (src/p2p/wire.c): a payload of fields inside a length-delimited frame. */
module Wire {
  import opened Base
  import opened Codec
  import opened Buffers
  import opened Fields

  const MAGIC: bytes := [0x56, 0x43, 0x50, 0x31] // "VCP1"

  type u16 = x: int | 0 <= x < 0x1_0000

  datatype Msg =
    | Hello(major: u16, minor: u16, node: Bytes32)
    | Tip(no: u64, hash: Bytes32)
    | GetSegments(from: u64, max: u64)
    | SegmentData(no: u64, hash: Bytes32, data: bytes)
    | Error(code: u64, text: bytes)

  function TypeByte(m: Msg): byte {
    match m
    case Hello(_, _, _) => 1
    case Tip(_, _) => 2
    case GetSegments(_, _) => 3
    case SegmentData(_, _, _) => 4
    case Error(_, _) => 5
  }

  function Layout(kind: byte): Option<seq<Field>> {
    if kind == 1 then Some([Fixed(2), Fixed(2), Fixed(32)])
    else if kind == 2 then Some([Var, Fixed(32)])
    else if kind == 3 then Some([Var, Var])
    else if kind == 4 then Some([Var, Fixed(32), Ld])
    else if kind == 5 then Some([Var, Ld])
    else None
  }

  function Values(m: Msg): seq<Value> {
    match m
    case Hello(major, minor, node) => [Raw(U16Encode(major)), Raw(U16Encode(minor)), Raw(node)]
    case Tip(no, hash) => [Num(no), Raw(hash)]
    case GetSegments(from, max) => [Num(from), Num(max)]
    case SegmentData(no, hash, data) => [Num(no), Raw(hash), Blob(data)]
    case Error(code, text) => [Num(code), Blob(text)]
  }

  lemma ValuesFit(m: Msg)
    ensures Layout(TypeByte(m)) == Some(Kinds(Values(m)))
  { assert Layout(TypeByte(m)).value == Kinds(Values(m)); }

  lemma U16RoundTrip(v: u16)
    ensures U16Decode(U16Encode(v)[0], U16Encode(v)[1]) == v
  { }

  function FromValues(kind: byte, vs: seq<Value>): (m: Msg)
    requires Layout(kind) == Some(Kinds(vs))
    ensures TypeByte(m) == kind
  {
    assert forall i :: 0 <= i < |vs| ==> Kind(vs[i]) == Kinds(vs)[i];
    if kind == 1 then Hello(U16Decode(vs[0].b[0], vs[0].b[1]), U16Decode(vs[1].b[0], vs[1].b[1]), vs[2].b)
    else if kind == 2 then Tip(vs[0].n, vs[1].b)
    else if kind == 3 then GetSegments(vs[0].n, vs[1].n)
    else if kind == 4 then SegmentData(vs[0].n, vs[1].b, vs[2].b)
    else Error(vs[0].n, vs[1].b)
  }

  lemma FromOwnValues(m: Msg)
    ensures Layout(TypeByte(m)) == Some(Kinds(Values(m))) && FromValues(TypeByte(m), Values(m)) == m
  {
    ValuesFit(m);
    if m.Hello? { U16RoundTrip(m.major); U16RoundTrip(m.minor); }
  }

  lemma OwnValuesBack(kind: byte, vs: seq<Value>)
    requires Layout(kind) == Some(Kinds(vs))
    ensures Values(FromValues(kind, vs)) == vs
  {
    assert forall i :: 0 <= i < |vs| ==> Kind(vs[i]) == Kinds(vs)[i];
    if kind == 1 {
      assert U16Encode(U16Decode(vs[0].b[0], vs[0].b[1])) == vs[0].b;
      assert U16Encode(U16Decode(vs[1].b[0], vs[1].b[1])) == vs[1].b;
    }
  }

  function Payload(m: Msg): bytes { EncodeAll(Values(m)) }

  function Encode(m: Msg): bytes { MAGIC + [TypeByte(m), 0] + LdEncode(Payload(m)) }

  /** Payload and inner field lengths are size_t values. */
  predicate Encodable(m: Msg) { AllStorable(Values(m)) && |Payload(m)| < TWO64 }

  function ParsePayload(kind: byte, payload: bytes): Option<Msg> {
    var fs :- Layout(kind);
    var (vs, q) :- ParseAll(payload, 0, fs);
    if q != |payload| then None else
    assert Kinds(vs) == fs;
    Some(FromValues(kind, vs))
  }

  /** None stands for the format error, also for an unknown type; the flag byte is ignored. */
  function Decode(s: bytes): (r: Option<Msg>) {
    if |s| < 6 || s[..4] != MAGIC then None else
    var (payload, e) :- LdAt(s, 6);
    if e == |s| then ParsePayload(s[4], payload) else None
  }

  lemma RoundTrip(m: Msg)
    requires Encodable(m)
    ensures Decode(Encode(m)) == Some(m)
  {
    hide ParseAll, LdAt, LdEncode, EncodeAll, Values, FromValues, Layout, Kinds;
    var s, p := Encode(m), Payload(m);
    assert s[..4] == MAGIC && s[4] == TypeByte(m) && At(s, 6, LdEncode(p));
    LdRoundTrip(s, 6, p);
    assert At(p, 0, EncodeAll(Values(m)));
    AllRoundTrip(p, 0, Values(m));
    FromOwnValues(m);
  }

  /** Any reserved flag byte is accepted and lost. */
  lemma FlagByteIgnored(m: Msg, flags: byte)
    requires Encodable(m) && flags != 0
    ensures |Encode(m)| >= 6
    ensures var s := Encode(m)[5 := flags]; Decode(s) == Some(m) && Encode(m) != s
  {
    hide ParseAll, LdAt, LdEncode, EncodeAll, Values, FromValues, Layout, Kinds;
    var s, p := Encode(m)[5 := flags], Payload(m);
    assert Encode(m)[5] == 0 && s[5] == flags;
    assert s[..4] == MAGIC && s[4] == TypeByte(m) && s[6..] == LdEncode(p);
    assert At(s, 6, LdEncode(p));
    LdRoundTrip(s, 6, p);
    assert At(p, 0, EncodeAll(Values(m)));
    AllRoundTrip(p, 0, Values(m));
    FromOwnValues(m);
  }

  lemma EncodeInjective(m: Msg, m': Msg)
    requires Encodable(m) && Encodable(m') && Encode(m) == Encode(m')
    ensures m == m'
  {
    hide Encode, Decode, Encodable;
    RoundTrip(m);
    RoundTrip(m');
  }

  /** No accepted frame is a proper prefix of another. */
  lemma PrefixFree(s: bytes, t: bytes)
    requires Decode(s).Some? && Decode(t).Some? && s <= t
    ensures s == t
  {
    hide ParsePayload, LdAt;
    assert t[..|s|] == s[..|s|];
    LdStable(s, t, 6);
  }

  /** Cutting an encoded frame short or appending to it makes it unacceptable. */
  lemma FrameIsWhole(m: Msg, other: bytes)
    requires Encodable(m) && other != Encode(m) && (other <= Encode(m) || Encode(m) <= other)
    ensures Decode(other) == None
  {
    hide Encode, Decode, Encodable;
    RoundTrip(m);
    if Decode(other).Some? {
      if other <= Encode(m) { PrefixFree(other, Encode(m)); } else { PrefixFree(Encode(m), other); }
    }
  }

  /** The reserved flag byte is zero and all varints, inside and outside, are minimal. */
  predicate Canonical(s: bytes)
    requires Decode(s).Some?
  {
    var payload := LdAt(s, 6).value.0;
    s[5] == 0 && VarMinimal(s, 6, VarAt(s, 6).value.1) && AllMinimal(payload, 0, Layout(s[4]).value)
  }

  lemma Reencode(s: bytes)
    requires Decode(s).Some?
    ensures Encode(Decode(s).value) == s <==> Canonical(s)
  {
    hide VarAt, LdAt, LdEncode, ParseAll, EncodeAll, AllMinimal, VarMinimal, FromValues, Values, Layout;
    var m := Decode(s).value;
    var payload := LdAt(s, 6).value.0;
    var vs := ParseAll(payload, 0, Layout(s[4]).value).value.0;
    assert Layout(s[4]).value == Kinds(vs);
    OwnValuesBack(s[4], vs);
    AllReencode(payload, 0, Layout(s[4]).value);
    LdReencode(s, 6);
    assert payload[0..|payload|] == payload && s[6..|s|] == s[6..];
    FrameParts(s, s[4], Payload(m));
    if Payload(m) != payload && Encode(m) == s { LdRoundTripFrame(s, Payload(m), payload); }
  }

  lemma FrameParts(s: bytes, kind: byte, p: bytes)
    requires |s| >= 6 && s[..4] == MAGIC && s[4] == kind
    ensures MAGIC + [kind, 0] + LdEncode(p) == s <==> s[5] == 0 && LdEncode(p) == s[6..]
  {
    hide LdEncode;
    assert s == s[..4] + [s[4], s[5]] + s[6..];
    if MAGIC + [kind, 0] + LdEncode(p) == s { assert s[5] == (MAGIC + [kind, 0] + LdEncode(p))[5]; }
  }

  /** A frame has one payload. */
  lemma LdRoundTripFrame(s: bytes, p: bytes, q: bytes)
    requires |s| >= 6 && LdEncode(p) == s[6..] && LdAt(s, 6) == Some((q, |s|))
    ensures p == q
  {
    assert s[6..] == VarEncode(|p|) + p;
    if |p| < TWO64 {
      assert At(s, 6, LdEncode(p));
      LdRoundTrip(s, 6, p);
    }
  }

  // ---------------------------------------------------------------- the code

  /** The payload buffer, filled by message type. */
  method EncodePayload(m: Msg, grants: Option<nat>) returns (st: Status, out: bytes)
    requires |Payload(m)| + VARINT_MAX < TWO64
    ensures st == Ok || st == OutOfMemory
    ensures st == Ok ==> out == Payload(m)
    ensures grants.None? && |Payload(m)| + VARINT_MAX <= TWO63 ==> st == Ok
  {
    PayloadSteps(m);
    hide VarEncode, EncodeAll, Values;
    out := [];
    var p := new WriteBuffer(grants);
    match m {
      case Hello(major, minor, node) =>
        st := p.PutU16(major); if st != Ok { return; }
        st := p.PutU16(minor); if st != Ok { return; }
        st := p.PutBytes(node);
      case Tip(no, hash) =>
        st := p.PutVar(no); if st != Ok { return; }
        st := p.PutBytes(hash);
      case GetSegments(from, max) =>
        st := p.PutVar(from); if st != Ok { return; }
        st := p.PutVar(max);
      case SegmentData(no, hash, data) =>
        st := p.PutVar(no); if st != Ok { return; }
        st := p.PutBytes(hash); if st != Ok { return; }
        st := p.PutLd(data);
      case Error(code, text) =>
        st := p.PutVar(code); if st != Ok { return; }
        st := p.PutLd(text);
    }
    if st == Ok { out := p.data; }
  }

  /** A payload is little longer than the byte string it carries. */
  lemma PayloadSize(m: Msg)
    requires (m.SegmentData? ==> |m.data| < TWO63) && (m.Error? ==> |m.text| < TWO63)
    ensures Encodable(m)
  {
    PayloadSteps(m);
    hide VarEncode, EncodeAll, Payload;
    match m
    case Hello(_, _, _) =>
    case Tip(no, _) => EncodeAtMostTen(no);
    case GetSegments(from, max) => EncodeAtMostTen(from); EncodeAtMostTen(max);
    case SegmentData(no, _, data) => EncodeAtMostTen(no); EncodeAtMostTen(|data|);
    case Error(code, text) => EncodeAtMostTen(code); EncodeAtMostTen(|text|);
  }

  lemma PayloadSteps(m: Msg)
    ensures Payload(m) == match m
            case Hello(major, minor, node) => U16Encode(major) + U16Encode(minor) + node
            case Tip(no, hash) => VarEncode(no) + hash
            case GetSegments(from, max) => VarEncode(from) + VarEncode(max)
            case SegmentData(no, hash, data) => VarEncode(no) + hash + LdEncode(data)
            case Error(code, text) => VarEncode(code) + LdEncode(text)
  {
    hide VarEncode, LdEncode;
    var vs := Values(m);
    assert vs == [vs[0]] + vs[1..] && vs[1..] == [vs[1]] + vs[2..];
    assert EncodeAll(vs[1..]) == EncodeValue(vs[1]) + EncodeAll(vs[2..]) by { assert vs[1..][1..] == vs[2..]; }
    if |vs| == 3 {
      assert EncodeAll(vs[2..]) == EncodeValue(vs[2]) + EncodeAll(vs[3..]) by { assert vs[2..][1..] == vs[3..]; }
    }
  }

  /** The frame, byte string by byte string, for each message type. */
  lemma FrameBytes(m: Msg)
    ensures Encode(m) == [0x56, 0x43, 0x50, 0x31] + match m
            case Hello(major, minor, node) => [1, 0] + LdEncode(U16Encode(major) + U16Encode(minor) + node)
            case Tip(no, hash) => [2, 0] + LdEncode(VarEncode(no) + hash)
            case GetSegments(from, max) => [3, 0] + LdEncode(VarEncode(from) + VarEncode(max))
            case SegmentData(no, hash, data) => [4, 0] + LdEncode(VarEncode(no) + hash + LdEncode(data))
            case Error(code, text) => [5, 0] + LdEncode(VarEncode(code) + LdEncode(text))
  {
    hide VarEncode, LdEncode, Payload;
    PayloadSteps(m);
  }

  /** The two buffers, each with its own count of reallocations that succeed. */
  method EncodeFrame(m: Msg, grants: Option<nat>, inner: Option<nat>) returns (st: Status, out: bytes)
    requires |Encode(m)| + VARINT_MAX < TWO64
    ensures st == Ok || st == OutOfMemory
    ensures st == Ok ==> out == Encode(m)
    ensures grants.None? && inner.None? && |Encode(m)| + VARINT_MAX <= TWO63 ==> st == Ok
  {
    hide VarEncode, EncodeAll, Payload;
    out := [];
    var w := new WriteBuffer(grants);
    st := w.PutBytes(MAGIC); if st != Ok { return; }
    st := w.PutU8(TypeByte(m)); if st != Ok { return; }
    st := w.PutU8(0); if st != Ok { return; }
    var payload;
    st, payload := EncodePayload(m, inner); if st != Ok { return; }
    st := w.PutVar(|payload|); if st != Ok { return; }
    st := w.PutBytes(payload); if st != Ok { return; }
    out := w.data;
  }

  /** A HELLO payload: two versions and the node id. */
  method GetHello(pr: ReadBuffer) returns (r: Option<Msg>)
    requires pr.Valid() && pr.pos == 0
    modifies pr
    ensures r == ParsePayload(1, pr.data)
  {
    hide ParseAll, VarAt, LdAt, Progress, Kinds;
    ghost var payload, fs, vs: seq<Value> := pr.data, Layout(1).value, [];
    ProgressStart(payload, 0, fs);
    ProgressStep(payload, 0, fs, vs, pr.pos);
    var major := pr.GetU16();
    if major.None? { return None; }
    vs := vs + [Raw(pr.data[..2])];
    ProgressStep(payload, 0, fs, vs, pr.pos);
    var minor := pr.GetU16();
    if minor.None? { return None; }
    vs := vs + [Raw(pr.data[2..4])];
    ProgressStep(payload, 0, fs, vs, pr.pos);
    var node := pr.GetBytes(32);
    if node.None? { return None; }
    vs := vs + [Raw(node.value)];
    r := Some(Hello(major.value, minor.value, node.value));
    ProgressDone(payload, 0, fs, vs, pr.pos);
    if pr.Remaining() != 0 { return None; }
  }

  /** A SEGMENT payload: number, hash and bytes. */
  method GetSegment(pr: ReadBuffer) returns (r: Option<Msg>)
    requires pr.Valid() && pr.pos == 0
    modifies pr
    ensures r == ParsePayload(4, pr.data)
  {
    hide ParseAll, VarAt, LdAt, Progress, Kinds;
    ghost var payload, fs, vs: seq<Value> := pr.data, Layout(4).value, [];
    ProgressStart(payload, 0, fs);
    ProgressStep(payload, 0, fs, vs, pr.pos);
    var no := pr.GetVar();
    if no.None? { return None; }
    vs := vs + [Num(no.value)];
    ProgressStep(payload, 0, fs, vs, pr.pos);
    var hash := pr.GetBytes(32);
    if hash.None? { return None; }
    vs := vs + [Raw(hash.value)];
    ProgressStep(payload, 0, fs, vs, pr.pos);
    var data := pr.GetLd();
    if data.None? { return None; }
    vs := vs + [Blob(data.value)];
    r := Some(SegmentData(no.value, hash.value, data.value));
    ProgressDone(payload, 0, fs, vs, pr.pos);
    if pr.Remaining() != 0 { return None; }
  }

  method DecodePayload(kind: byte, payload: bytes) returns (r: Option<Msg>)
    ensures r == ParsePayload(kind, payload)
  {
    hide ParseAll, VarAt, LdAt, Progress, Kinds;
    var pr := new ReadBuffer(payload);
    ghost var fs, vs: seq<Value> := if Layout(kind).Some? then Layout(kind).value else [], [];
    ProgressStart(payload, 0, fs);
    if kind == 1 { r := GetHello(pr); return; }
    if kind == 4 { r := GetSegment(pr); return; }
    if kind == 2 {
      ProgressStep(payload, 0, fs, vs, pr.pos);
      var no := pr.GetVar();
      if no.None? { return None; }
      vs := vs + [Num(no.value)];
      ProgressStep(payload, 0, fs, vs, pr.pos);
      var hash := pr.GetBytes(32);
      if hash.None? { return None; }
      vs := vs + [Raw(hash.value)];
      r := Some(Tip(no.value, hash.value));
    } else if kind == 3 {
      ProgressStep(payload, 0, fs, vs, pr.pos);
      var from := pr.GetVar();
      if from.None? { return None; }
      vs := vs + [Num(from.value)];
      ProgressStep(payload, 0, fs, vs, pr.pos);
      var max := pr.GetVar();
      if max.None? { return None; }
      vs := vs + [Num(max.value)];
      r := Some(GetSegments(from.value, max.value));
    } else if kind == 5 {
      ProgressStep(payload, 0, fs, vs, pr.pos);
      var code := pr.GetVar();
      if code.None? { return None; }
      vs := vs + [Num(code.value)];
      ProgressStep(payload, 0, fs, vs, pr.pos);
      var text := pr.GetLd();
      if text.None? { return None; }
      vs := vs + [Blob(text.value)];
      r := Some(Error(code.value, text.value));
    } else {
      return None;
    }
    ProgressDone(payload, 0, fs, vs, pr.pos);
    if pr.Remaining() != 0 { return None; }
  }

  method DecodeFrame(frame: bytes) returns (r: Option<Msg>)
    ensures r == Decode(frame)
  {
    hide ParsePayload, VarAt;
    if |frame| < 6 { return None; }
    var rb := new ReadBuffer(frame);
    var magic := rb.GetBytes(4);
    if magic != Some(MAGIC) { return None; }
    var kind := rb.GetU8();
    var flags := rb.GetU8();
    var n := rb.GetVar();
    if n.None? || n.value > rb.Remaining() { return None; }
    var payload := rb.GetBytes(n.value);
    if rb.Remaining() != 0 { return None; }
    r := DecodePayload(kind.value, payload.value);
  }
}
