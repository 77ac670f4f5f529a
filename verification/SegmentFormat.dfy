/** The VCS1 segment format: encoding, decoding, verification and the two header peeks
    (src/model/segment.c, src/store/store_log.c, src/store/store_sqlite.c). */
module SegmentFormat {
  import opened Base
  import opened Codec
  import opened Buffers
  import opened Fields
  import RecordFormat
  import Merkle

  const MAGIC: bytes := [0x56, 0x43, 0x53, 0x31] // "VCS1"

  datatype Header = Header(no: u64, prev: Bytes32, count: u64, root: Bytes32, timestamp: u64)
  datatype Segment = Segment(hdr: Header, records: seq<bytes>, sig: Option<Bytes64>)

  /** The header counts the records; lengths are size_t values. */
  predicate Encodable(seg: Segment) {
    seg.hdr.count == |seg.records| && forall i :: 0 <= i < |seg.records| ==> |seg.records[i]| < TWO64
  }

  const HEAD: seq<Field> := [Var, Fixed(32), Var, Fixed(32), Var]

  function Rest(count: nat, signed: bool): (fs: seq<Field>)
    ensures |fs| == count + (if signed then 1 else 0)
    ensures forall i :: 0 <= i < count ==> fs[i] == Ld
    ensures signed ==> fs[count] == Fixed(64)
  { seq(count, _ => Ld) + if signed then [Fixed(64)] else [] }

  function HeadValues(h: Header): (vs: seq<Value>)
    ensures Kinds(vs) == HEAD
  { [Num(h.no), Raw(h.prev), Num(h.count), Raw(h.root), Num(h.timestamp)] }

  function FromHead(vs: seq<Value>): (h: Header)
    requires |vs| == 5 && forall i :: 0 <= i < 5 ==> Kind(vs[i]) == HEAD[i]
    ensures HeadValues(h) == vs
  {
    assert Kind(vs[0]) == HEAD[0] && Kind(vs[1]) == HEAD[1] && Kind(vs[2]) == HEAD[2];
    assert Kind(vs[3]) == HEAD[3] && Kind(vs[4]) == HEAD[4];
    Header(vs[0].n, vs[1].b, vs[2].n, vs[3].b, vs[4].n)
  }

  function Blobs(records: seq<bytes>): (vs: seq<Value>)
    ensures |vs| == |records| && forall i :: 0 <= i < |records| ==> vs[i] == Blob(records[i])
  { seq(|records|, i requires 0 <= i < |records| => Blob(records[i])) }

  function SigValues(sig: Option<Bytes64>): seq<Value> { if sig.Some? then [Raw(sig.value)] else [] }

  function RestValues(records: seq<bytes>, sig: Option<Bytes64>): (vs: seq<Value>)
    ensures Kinds(vs) == Rest(|records|, sig.Some?)
  { Blobs(records) + SigValues(sig) }

  /** Records and signature out of the fields behind the header. */
  function RecordsOf(vs: seq<Value>, count: nat, signed: bool): (rs: seq<bytes>)
    requires |vs| == |Rest(count, signed)| && forall i :: 0 <= i < |vs| ==> Kind(vs[i]) == Rest(count, signed)[i]
    ensures |rs| == count && Blobs(rs) == vs[..count]
  {
    assert forall i :: 0 <= i < count ==> Kind(vs[i]) == Ld;
    seq(count, i requires 0 <= i < count => vs[i].b)
  }

  function SigOf(vs: seq<Value>, count: nat, signed: bool): (sig: Option<Bytes64>)
    requires |vs| == |Rest(count, signed)| && forall i :: 0 <= i < |vs| ==> Kind(vs[i]) == Rest(count, signed)[i]
    ensures sig.Some? == signed && SigValues(sig) == vs[count..]
  {
    assert signed ==> Kind(vs[count]) == Fixed(64);
    if signed then Some(vs[count].b) else None
  }

  function Preamble(sig: Option<Bytes64>): bytes { MAGIC + [RecordFormat.FlagByte(sig)] }

  function Encode(seg: Segment): bytes {
    Preamble(seg.sig) + (EncodeAll(HeadValues(seg.hdr)) + EncodeAll(RestValues(seg.records, seg.sig)))
  }

  /** None stands for the format error. */
  function Decode(s: bytes): (r: Option<Segment>)
    ensures r.Some? ==> Encodable(r.value) && |s| >= 6 && s[..4] == MAGIC && r.value.sig.Some? == (s[4] % 2 == 1)
  {
    if |s| < 5 || s[..4] != MAGIC then None else
    hide ParseAll, Kinds;
    var signed := s[4] % 2 == 1;
    var (hv, q) :- ParseAll(s, 5, HEAD);
    var h := FromHead(hv);
    var (rv, e) :- ParseAll(s, q, Rest(h.count, signed));
    if e == |s| then
      HeadNotEmpty(s);
      Some(Segment(h, RecordsOf(rv, h.count, signed), SigOf(rv, h.count, signed)))
    else None
  }

  lemma HeadNotEmpty(s: bytes)
    requires |s| >= 5 && ParseAll(s, 5, HEAD).Some?
    ensures |s| >= 6
  { hide VarAt; }

  /** Every length-delimited field takes at least a byte. */
  lemma {:induction false} LdsTakeBytes(s: bytes, p: nat, fs: seq<Field>, n: nat)
    requires p <= |s| && n <= |fs| && ParseAll(s, p, fs).Some?
    requires forall i :: 0 <= i < n ==> fs[i] == Ld
    ensures ParseAll(s, p, fs).value.1 >= p + n
    decreases n
  {
    hide VarAt;
    if n > 0 { LdsTakeBytes(s, ValueAt(s, p, fs[0]).value.1, fs[1..], n - 1); }
  }

  /** A segment cannot hold more records than bytes. */
  lemma CountBound(s: bytes)
    requires Decode(s).Some?
    ensures |Decode(s).value.records| <= |s|
  {
    hide ParseAll, FromHead, RecordsOf, SigOf;
    var signed := s[4] % 2 == 1;
    var (hv, q) := ParseAll(s, 5, HEAD).value;
    LdsTakeBytes(s, q, Rest(FromHead(hv).count, signed), FromHead(hv).count);
  }

  // ---------------------------------------------------------------- round trip, prefixes, re-encoding

  lemma BlobsInjective(a: seq<bytes>, b: seq<bytes>)
    requires Blobs(a) == Blobs(b)
    ensures a == b
  {
    assert |a| == |Blobs(a)| == |Blobs(b)| == |b|;
    forall i | 0 <= i < |a| ensures a[i] == b[i] { assert Blobs(a)[i] == Blobs(b)[i]; }
  }

  /** The parts of a segment are determined by its field values. */
  lemma Reassemble(seg: Segment)
    requires Encodable(seg)
    ensures var rv := RestValues(seg.records, seg.sig);
            && FromHead(HeadValues(seg.hdr)) == seg.hdr
            && RecordsOf(rv, |seg.records|, seg.sig.Some?) == seg.records
            && SigOf(rv, |seg.records|, seg.sig.Some?) == seg.sig
  {
    var rv := RestValues(seg.records, seg.sig);
    var hv := HeadValues(FromHead(HeadValues(seg.hdr)));
    assert hv[0] == Num(seg.hdr.no) && hv[1] == Raw(seg.hdr.prev) && hv[2] == Num(seg.hdr.count);
    assert hv[3] == Raw(seg.hdr.root) && hv[4] == Num(seg.hdr.timestamp);
    assert rv[..|seg.records|] == Blobs(seg.records);
    BlobsInjective(RecordsOf(rv, |seg.records|, seg.sig.Some?), seg.records);
  }

  /** Records one after the other, each behind its length. */
  function Delimited(records: seq<bytes>): bytes
  { if records == [] then [] else LdEncode(records[0]) + Delimited(records[1..]) }

  lemma {:induction false} DelimitedFields(records: seq<bytes>)
    ensures EncodeAll(Blobs(records)) == Delimited(records)
    decreases |records|
  {
    hide LdEncode, EncodeAll;
    if records == [] {
      NoFields();
      assert Blobs(records) == [];
    } else {
      EncodeCons(Blobs(records));
      assert Blobs(records)[1..] == Blobs(records[1..]);
      DelimitedFields(records[1..]);
    }
  }

  lemma HeaderBytes(h: Header)
    ensures var prev: bytes, root: bytes := h.prev, h.root;
            EncodeAll(HeadValues(h)) == VarEncode(h.no) + prev + VarEncode(h.count) + root + VarEncode(h.timestamp)
  {
    hide VarEncode, EncodeAll;
    var vs := HeadValues(h);
    EncodeCons(vs);
    EncodeCons(vs[1..]);
    EncodeCons(vs[2..]);
    EncodeCons(vs[3..]);
    EncodeCons(vs[4..]);
    NoFields();
    assert vs[1..][1..] == vs[2..] && vs[2..][1..] == vs[3..] && vs[3..][1..] == vs[4..] && vs[4..][1..] == [];
  }

  /** The encoding, byte string by byte string. */
  lemma EncodedBytes(seg: Segment)
    ensures var h := seg.hdr; var prev: bytes, root: bytes := h.prev, h.root;
            var sig: bytes := if seg.sig.Some? then seg.sig.value else [];
            Encode(seg) == [0x56, 0x43, 0x53, 0x31] + [if seg.sig.Some? then 1 else 0]
              + (VarEncode(h.no) + prev + VarEncode(h.count) + root + VarEncode(h.timestamp))
              + Delimited(seg.records) + sig
  {
    hide VarEncode, EncodeAll, HeadValues, Blobs, Delimited;
    HeaderBytes(seg.hdr);
    DelimitedFields(seg.records);
    EncodeAppend(Blobs(seg.records), SigValues(seg.sig));
    NoFields();
    if seg.sig.Some? {
      EncodeCons(SigValues(seg.sig));
      assert SigValues(seg.sig)[1..] == [];
    }
  }

  lemma RestStorable(records: seq<bytes>, sig: Option<Bytes64>)
    requires forall i :: 0 <= i < |records| ==> |records[i]| < TWO64
    ensures AllStorable(RestValues(records, sig))
  { }

  lemma RoundTrip(seg: Segment)
    requires Encodable(seg)
    ensures Decode(Encode(seg)) == Some(seg)
  {
    hide ParseAll, EncodeAll, Kinds, RestValues, HeadValues, FromHead, RecordsOf, SigOf, Rest;
    var s := Encode(seg);
    var hv, rv := HeadValues(seg.hdr), RestValues(seg.records, seg.sig);
    assert s[..4] == MAGIC && s[4] == RecordFormat.FlagByte(seg.sig);
    assert At(s, 5, EncodeAll(hv) + EncodeAll(rv));
    AtSplit(s, 5, EncodeAll(hv), EncodeAll(rv));
    RestStorable(seg.records, seg.sig);
    HeadStorable(seg.hdr);
    AllRoundTrip(s, 5, hv);
    AllRoundTrip(s, 5 + |EncodeAll(hv)|, rv);
    Reassemble(seg);
  }

  /** Undefined flag bits are accepted and lost. */
  lemma FlagBitsIgnored(seg: Segment, flags: byte)
    requires Encodable(seg) && flags % 2 == RecordFormat.FlagByte(seg.sig) && flags != RecordFormat.FlagByte(seg.sig)
    ensures |Encode(seg)| >= 5
    ensures var s := Encode(seg)[4 := flags]; Decode(s) == Some(seg) && Encode(seg) != s
  {
    hide ParseAll, EncodeAll, Kinds, RestValues, HeadValues, FromHead, RecordsOf, SigOf, Rest;
    var s := Encode(seg)[4 := flags];
    var hv, rv := HeadValues(seg.hdr), RestValues(seg.records, seg.sig);
    assert s[..4] == MAGIC && s[4] == flags != Encode(seg)[4];
    assert s[5..] == EncodeAll(hv) + EncodeAll(rv);
    assert At(s, 5, EncodeAll(hv) + EncodeAll(rv));
    AtSplit(s, 5, EncodeAll(hv), EncodeAll(rv));
    RestStorable(seg.records, seg.sig);
    HeadStorable(seg.hdr);
    AllRoundTrip(s, 5, hv);
    AllRoundTrip(s, 5 + |EncodeAll(hv)|, rv);
    Reassemble(seg);
  }

  lemma HeadStorable(h: Header)
    ensures AllStorable(HeadValues(h))
  { }

  lemma PrefixFree(s: bytes, t: bytes)
    requires Decode(s).Some? && Decode(t).Some? && s <= t
    ensures s == t
  {
    hide ParseAll, Kinds, FromHead, RecordsOf, SigOf, Rest;
    assert s[..4] == t[..4] && s[4] == t[4];
    var q := ParseAll(s, 5, HEAD).value.1;
    assert t[..q] == s[..q] && t[..|s|] == s[..|s|];
    AllStable(s, t, 5, HEAD);
    var h := FromHead(ParseAll(s, 5, HEAD).value.0);
    AllStable(s, t, q, Rest(h.count, s[4] % 2 == 1));
  }

  /** Only the defined flag bit is used and every varint is minimal. */
  predicate Canonical(s: bytes)
    requires Decode(s).Some?
  {
    hide ParseAll, Kinds;
    var (hv, q) := ParseAll(s, 5, HEAD).value;
    s[4] <= 1 && AllMinimal(s, 5, HEAD) && AllMinimal(s, q, Rest(FromHead(hv).count, s[4] % 2 == 1))
  }

  /** The accepted bytes fall into preamble, header fields and the rest. */
  lemma Anatomy(s: bytes)
    requires Decode(s).Some?
    ensures var seg := Decode(s).value;
            var r := ParseAll(s, 5, HEAD);
            && r.Some? && r.value.0 == HeadValues(seg.hdr)
            && ParseAll(s, r.value.1, Rest(seg.hdr.count, s[4] % 2 == 1))
               == Some((RestValues(seg.records, seg.sig), |s|))
            && FromHead(r.value.0).count == seg.hdr.count
  {
    hide ParseAll, Kinds, RecordsOf, SigOf, RestValues, FromHead, HeadValues, Rest;
    var signed := s[4] % 2 == 1;
    var (hv, q) := ParseAll(s, 5, HEAD).value;
    var rv := ParseAll(s, q, Rest(FromHead(hv).count, signed)).value.0;
    RestBack(rv, FromHead(hv).count, signed);
  }

  lemma RestBack(rv: seq<Value>, count: nat, signed: bool)
    requires |rv| == |Rest(count, signed)| && forall i :: 0 <= i < |rv| ==> Kind(rv[i]) == Rest(count, signed)[i]
    ensures RestValues(RecordsOf(rv, count, signed), SigOf(rv, count, signed)) == rv
  {
    hide RecordsOf, SigOf;
    assert rv == rv[..count] + rv[count..];
  }

  lemma Glue(s: bytes, q: nat, pre: bytes, a: bytes, b: bytes)
    requires |pre| <= q <= |s| && pre == s[..|pre|] && a == s[|pre|..q] && b == s[q..]
    ensures pre + (a + b) == s
  { }

  lemma Unglue(s: bytes, pre: bytes, a: bytes, b: bytes)
    requires pre + (a + b) == s
    ensures At(s, |pre|, a + b) && s[..|pre|] == pre && s[|pre|..|pre| + |a|] == a && s[|pre| + |a|..] == b
  { }

  lemma RunEnd(s: bytes, pre: bytes, hv: seq<Value>, q: nat, tail: bytes)
    requires |pre| == 5 <= |s| && AllStorable(hv) && ParseAll(s, 5, Kinds(hv)) == Some((hv, q))
    requires pre + (EncodeAll(hv) + tail) == s
    ensures pre == s[..5] && EncodeAll(hv) == s[5..q] && tail == s[q..]
  {
    hide ParseAll, EncodeAll, Kinds, AllStorable;
    Unglue(s, pre, EncodeAll(hv), tail);
    AtSplit(s, 5, EncodeAll(hv), tail);
    AllRoundTrip(s, 5, hv);
  }

  /** The same for any two runs of fields behind a five-byte preamble. */
  lemma ReencodeRuns(s: bytes, pre: bytes, gs: seq<Field>, hv: seq<Value>, q: nat, fs: seq<Field>, rv: seq<Value>)
    requires |pre| == 5 <= |s|
    requires ParseAll(s, 5, gs) == Some((hv, q)) && ParseAll(s, q, fs) == Some((rv, |s|))
    ensures pre + (EncodeAll(hv) + EncodeAll(rv)) == s <==>
              pre == s[..5] && AllMinimal(s, 5, gs) && AllMinimal(s, q, fs)
  {
    assert Kinds(hv) == gs && AllStorable(hv);
    hide ParseAll, EncodeAll, Kinds, AllMinimal, AllStorable, Kind, Storable;
    AllReencode(s, 5, gs);
    AllReencode(s, q, fs);
    assert s[q..|s|] == s[q..];
    if pre == s[..5] && AllMinimal(s, 5, gs) && AllMinimal(s, q, fs) { Glue(s, q, pre, EncodeAll(hv), EncodeAll(rv)); }
    if pre + (EncodeAll(hv) + EncodeAll(rv)) == s { RunEnd(s, pre, hv, q, EncodeAll(rv)); }
  }

  lemma PreambleRead(s: bytes, sig: Option<Bytes64>)
    requires |s| >= 5 && s[..4] == MAGIC && sig.Some? == (s[4] % 2 == 1)
    ensures Preamble(sig) == s[..5] <==> s[4] <= 1
  {
    assert s[..5] == s[..4] + [s[4]];
    assert Preamble(sig)[4] == RecordFormat.FlagByte(sig);
  }

  /** encode(decode(s)) gives s back exactly on canonical bytes. */
  lemma Reencode(s: bytes)
    requires Decode(s).Some?
    ensures Encode(Decode(s).value) == s <==> Canonical(s)
  {
    Anatomy(s);
    var seg := Decode(s).value;
    PreambleRead(s, seg.sig);
    hide ParseAll, EncodeAll, Kinds, Kind, AllStorable, RestValues,
         HeadValues, FromHead, Rest, AllMinimal, Decode, Preamble;
    var q := ParseAll(s, 5, HEAD).value.1;
    ReencodeRuns(s, Preamble(seg.sig), HEAD, HeadValues(seg.hdr), q,
                 Rest(seg.hdr.count, s[4] % 2 == 1), RestValues(seg.records, seg.sig));
  }

  // ---------------------------------------------------------------- peeking

  /** The log store's look at the number (six bytes at least, magic, flags skipped). */
  function PeekNo(s: bytes): Option<u64> {
    if |s| < 6 || s[..4] != MAGIC then None else
    var (no, _) :- VarAt(s, 5);
    Some(no)
  }

  /** The SQLite store's look at number and previous hash. */
  function PeekNoPrev(s: bytes): Option<(u64, Bytes32)> {
    if |s| < 6 || s[..4] != MAGIC then None else
    var (no, q) :- VarAt(s, 5);
    var (prev, _) :- SliceAt(s, q, 32);
    Some((no, prev))
  }

  lemma FirstTwoFields(s: bytes)
    requires |s| >= 5 && ParseAll(s, 5, HEAD).Some?
    ensures var vs := ParseAll(s, 5, HEAD).value.0;
            && VarAt(s, 5).Some? && vs[0] == Num(VarAt(s, 5).value.0)
            && SliceAt(s, VarAt(s, 5).value.1, 32).Some? && vs[1] == Raw(SliceAt(s, VarAt(s, 5).value.1, 32).value.0)
  {
    hide VarAt, LdAt;
    var tail := HEAD[1..];
    assert tail[0] == Fixed(32);
    assert ParseAll(s, VarAt(s, 5).value.1, tail).Some?;
  }

  /** On everything the decoder accepts both peeks agree with it. */
  lemma PeekAgrees(s: bytes)
    requires Decode(s).Some?
    ensures PeekNo(s) == Some(Decode(s).value.hdr.no)
    ensures PeekNoPrev(s) == Some((Decode(s).value.hdr.no, Decode(s).value.hdr.prev))
  {
    Anatomy(s);
    FirstTwoFields(s);
    hide VarAt, ParseAll, Decode, RestValues, Rest;
  }

  /** Where the SQLite peek answers, the log peek gives the same number. */
  lemma PeeksAgree(s: bytes)
    requires PeekNoPrev(s).Some?
    ensures PeekNo(s) == Some(PeekNoPrev(s).value.0)
  { }

  // ---------------------------------------------------------------- verification

  predicate RecordsDecode(records: seq<bytes>) {
    forall i :: 0 <= i < |records| ==> RecordFormat.Decode(records[i]).Some?
  }

  /** A zero root means that none was stored; a segment signature cannot be checked. */
  function VerifyStatus(H: HashFn, s: bytes): Status {
    match Decode(s)
    case None => Format
    case Some(seg) =>
      if !RecordsDecode(seg.records) then Format
      else if seg.hdr.root != ZERO32 && |seg.records| > Merkle.MAX_LEAVES then Format
      else if seg.hdr.root != ZERO32 && Merkle.MerkleRoot(H, seg.records) != seg.hdr.root then Format
      else if seg.sig.Some? then Unsupported
      else Ok
  }

  /** A stored root is that of the reference tree over the records; zero stands for none. */
  ghost predicate RootFits(H: HashFn, root: Bytes32, records: seq<bytes>) {
    || (forall i :: 0 <= i < 32 ==> root[i] == 0)
    || (var n := |records|;
        && 0 < n <= Merkle.MAX_LEAVES && n <= Merkle.Pow2(Merkle.Height(n))
        && root == Merkle.Tree(H, records, Merkle.Height(n)))
  }

  lemma ZeroRoot(root: Bytes32)
    ensures root == ZERO32 <==> forall i :: 0 <= i < 32 ==> root[i] == 0
  { assert (forall i :: 0 <= i < 32 ==> root[i] == 0) ==> root == ZERO32; }

  /** What verification demands, and which code it returns: records that decode, a root that fits, no signature. */
  lemma VerifyExact(H: HashFn, s: bytes)
    ensures var d := Decode(s);
            VerifyStatus(H, s) ==
              if d.None? || (exists i :: 0 <= i < |d.value.records| && RecordFormat.Decode(d.value.records[i]).None?)
                 || !RootFits(H, d.value.hdr.root, d.value.records) then Format
              else if d.value.sig.Some? then Unsupported
              else Ok
  {
    hide Decode, RecordFormat.Decode, Merkle.MerkleRoot, Merkle.Tree, Merkle.Height, Merkle.Pow2;
    var d := Decode(s);
    if d.Some? {
      Merkle.MerkleIsTree(H, d.value.records);
      ZeroRoot(d.value.hdr.root);
    }
  }

  /** A verified nonzero root binds the records: put others in their place, as many and with the same header, and
      verification fails, or hashing the two lists ran into a collision. */
  lemma RootBindsRecords(H: HashFn, seg: Segment, records: seq<bytes>)
    requires Encodable(seg) && Encodable(seg.(records := records)) && seg.hdr.root != ZERO32
    requires VerifyStatus(H, Encode(seg)) == Ok && VerifyStatus(H, Encode(seg.(records := records))) == Ok
    ensures records == seg.records
            || CollisionBetween(H, Merkle.RootInputs(H, seg.records), Merkle.RootInputs(H, records))
  {
    hide Decode, Encode, RecordsDecode, Merkle.MerkleRoot, Merkle.RootInputs, CollisionBetween;
    RoundTrip(seg);
    RoundTrip(seg.(records := records));
    Merkle.RootBinding(H, seg.records, records);
  }

  // ---------------------------------------------------------------- the code

  lemma HeadValueList(h: Header)
    ensures var vs := HeadValues(h);
            && |vs| == 5 && vs[0] == Num(h.no) && vs[1] == Raw(h.prev) && vs[2] == Num(h.count)
            && vs[3] == Raw(h.root) && vs[4] == Num(h.timestamp)
  { }

  method PutHeader(w: WriteBuffer, h: Header) returns (st: Status)
    requires w.Valid() && |w.data| + |EncodeAll(HeadValues(h))| + VARINT_MAX < TWO64
    modifies w
    ensures w.Valid() && (st == Ok || st == OutOfMemory)
    ensures st == Ok ==> w.data == old(w.data) + EncodeAll(HeadValues(h))
    ensures old(w.grants).None? ==>
              w.grants.None? && (|old(w.data)| + |EncodeAll(HeadValues(h))| + VARINT_MAX <= TWO63 ==> st == Ok)
  {
    hide EncodeAll, VarEncode, Written, HeadValues;
    ghost var head, vs := w.data, HeadValues(h);
    HeadValueList(h);
    WriteStart(head, vs);
    WriteStep(w.data, head, vs, 0, VarEncode(h.no));
    st := w.PutVar(h.no); if st != Ok { return; }
    WriteStep(w.data, head, vs, 1, h.prev);
    st := w.PutBytes(h.prev); if st != Ok { return; }
    WriteStep(w.data, head, vs, 2, VarEncode(h.count));
    st := w.PutVar(h.count); if st != Ok { return; }
    WriteStep(w.data, head, vs, 3, h.root);
    st := w.PutBytes(h.root); if st != Ok { return; }
    WriteStep(w.data, head, vs, 4, VarEncode(h.timestamp));
    st := w.PutVar(h.timestamp); if st != Ok { return; }
    WriteDone(w.data, head, vs);
  }

  lemma RestValueList(records: seq<bytes>, sig: Option<Bytes64>)
    ensures var vs := RestValues(records, sig);
            && |vs| == |records| + (if sig.Some? then 1 else 0) && (sig.Some? ==> vs[|records|] == Raw(sig.value))
            && forall i :: 0 <= i < |records| ==> vs[i] == Blob(records[i])
  { }

  method PutRest(w: WriteBuffer, records: seq<bytes>, sig: Option<Bytes64>) returns (st: Status)
    requires w.Valid() && |w.data| + |EncodeAll(RestValues(records, sig))| + VARINT_MAX < TWO64
    modifies w
    ensures w.Valid() && (st == Ok || st == OutOfMemory)
    ensures st == Ok ==> w.data == old(w.data) + EncodeAll(RestValues(records, sig))
    ensures var size := |old(w.data)| + |EncodeAll(RestValues(records, sig))| + VARINT_MAX;
            old(w.grants).None? ==> w.grants.None? && (size <= TWO63 ==> st == Ok)
  {
    hide EncodeAll, LdEncode, Written, RestValues;
    ghost var head, vs := w.data, RestValues(records, sig);
    RestValueList(records, sig);
    WriteStart(head, vs);
    st := Ok;
    for i := 0 to |records|
      invariant w.Valid() && st == Ok && Written(w.data, head, vs, i)
      invariant old(w.grants).None? ==> w.grants.None?
    {
      WriteStep(w.data, head, vs, i, LdEncode(records[i]));
      st := w.PutLd(records[i]);
      if st != Ok { return; }
    }
    if sig.Some? {
      WriteStep(w.data, head, vs, |records|, sig.value);
      st := w.PutBytes(sig.value);
      if st != Ok { return; }
    }
    WriteDone(w.data, head, vs);
  }

  /** grants is the number of reallocations that succeed before one fails, if one does. */
  method EncodeSegment(seg: Segment, grants: Option<nat>) returns (st: Status, out: bytes)
    requires |Encode(seg)| + VARINT_MAX < TWO64
    ensures if seg.hdr.count != |seg.records| then st == InvalidArgument else st == Ok || st == OutOfMemory
    ensures st == Ok ==> out == Encode(seg)
    ensures seg.hdr.count == |seg.records| && grants.None? && |Encode(seg)| + VARINT_MAX <= TWO63 ==> st == Ok
  {
    hide EncodeAll;
    out := [];
    if seg.hdr.count != |seg.records| { return InvalidArgument, out; }
    var w := new WriteBuffer(grants);
    st := w.PutBytes(MAGIC); if st != Ok { return; }
    st := w.PutU8(RecordFormat.FlagByte(seg.sig)); if st != Ok { return; }
    st := PutHeader(w, seg.hdr); if st != Ok { return; }
    st := PutRest(w, seg.records, seg.sig); if st != Ok { return; }
    out := w.data;
  }

  method GetHeader(rb: ReadBuffer) returns (h: Option<Header>)
    requires rb.Valid()
    modifies rb
    ensures rb.Valid()
    ensures match ParseAll(rb.data, old(rb.pos), HEAD)
            case Some((vs, q)) => h == Some(FromHead(vs)) && rb.pos == q
            case None => h == None
  {
    hide ParseAll, VarAt, LdAt, Progress, FromHead, Kinds;
    ghost var s, p, vs: seq<Value> := rb.data, rb.pos, [];
    ProgressStart(s, p, HEAD);
    ProgressStep(s, p, HEAD, vs, rb.pos);
    var no := rb.GetVar(); if no.None? { return None; }
    vs := vs + [Num(no.value)];
    ProgressStep(s, p, HEAD, vs, rb.pos);
    var prev := rb.GetBytes(32); if prev.None? { return None; }
    vs := vs + [Raw(prev.value)];
    ProgressStep(s, p, HEAD, vs, rb.pos);
    var count := rb.GetVar(); if count.None? { return None; }
    vs := vs + [Num(count.value)];
    ProgressStep(s, p, HEAD, vs, rb.pos);
    var root := rb.GetBytes(32); if root.None? { return None; }
    vs := vs + [Raw(root.value)];
    ProgressStep(s, p, HEAD, vs, rb.pos);
    var ts := rb.GetVar(); if ts.None? { return None; }
    vs := vs + [Num(ts.value)];
    ProgressDone(s, p, HEAD, vs, rb.pos);
    h := Some(Header(no.value, prev.value, count.value, root.value, ts.value));
    AssembledHead(h.value, vs);
  }

  lemma AssembledHead(h: Header, vs: seq<Value>)
    requires vs == [] + [Num(h.no)] + [Raw(h.prev)] + [Num(h.count)] + [Raw(h.root)] + [Num(h.timestamp)]
    ensures |vs| == 5 && (forall i :: 0 <= i < 5 ==> Kind(vs[i]) == HEAD[i]) && FromHead(vs) == h
  {
    assert vs == HeadValues(h);
    HeadValueList(FromHead(vs));
    HeadValueList(h);
  }

  /** The record loop and the optional signature. */
  method GetRest(rb: ReadBuffer, count: u64, signed: bool) returns (r: Option<(seq<bytes>, Option<Bytes64>)>)
    requires rb.Valid()
    modifies rb
    ensures rb.Valid()
    ensures match ParseAll(rb.data, old(rb.pos), Rest(count, signed))
            case Some((vs, q)) => r == Some((RecordsOf(vs, count, signed), SigOf(vs, count, signed))) && rb.pos == q
            case None => r == None
  {
    ghost var s, p, fs := rb.data, rb.pos, Rest(count, signed);
    hide ParseAll, LdAt, Progress, RecordsOf, SigOf, Kinds, Rest;
    ProgressStart(s, p, fs);
    var recs: seq<bytes> := [];
    var i: nat := 0;
    while i < count
      invariant rb.Valid() && i == |recs| <= count && Progress(s, p, fs, Blobs(recs), rb.pos)
    {
      ProgressStep(s, p, fs, Blobs(recs), rb.pos);
      var rec := rb.GetLd();
      if rec.None? { return None; }
      assert Blobs(recs + [rec.value]) == Blobs(recs) + [Blob(rec.value)];
      recs := recs + [rec.value];
      i := i + 1;
    }
    var sig: Option<Bytes64> := None;
    ghost var vs := Blobs(recs);
    if signed {
      ProgressStep(s, p, fs, vs, rb.pos);
      var b := rb.GetBytes(64);
      if b.None? { return None; }
      sig := Some(b.value);
      vs := vs + [Raw(b.value)];
    }
    ProgressDone(s, p, fs, vs, rb.pos);
    AssembledRest(vs, recs, sig);
    r := Some((recs, sig));
  }

  lemma AssembledRest(vs: seq<Value>, recs: seq<bytes>, sig: Option<Bytes64>)
    requires vs == if sig.Some? then Blobs(recs) + [Raw(sig.value)] else Blobs(recs)
    requires |recs| < TWO64
    ensures var n, signed := |recs|, sig.Some?;
            && |vs| == |Rest(n, signed)| && (forall i :: 0 <= i < |vs| ==> Kind(vs[i]) == Rest(n, signed)[i])
            && RecordsOf(vs, n, signed) == recs && SigOf(vs, n, signed) == sig
  {
    assert vs[..|recs|] == Blobs(recs);
    BlobsInjective(RecordsOf(vs, |recs|, sig.Some?), recs);
    if sig.Some? { assert vs[|recs|] == Raw(sig.value); }
  }

  method DecodeSegment(encoded: bytes) returns (r: Option<Segment>)
    ensures r == Decode(encoded)
  {
    hide ParseAll, FromHead, Rest, RecordsOf, SigOf, Kinds;
    if |encoded| < 5 { return None; }
    var rb := new ReadBuffer(encoded);
    var magic := rb.GetBytes(4);
    if magic != Some(MAGIC) { return None; }
    var flags := rb.GetU8();
    var h := GetHeader(rb);
    if h.None? { return None; }
    var rest := GetRest(rb, h.value.count, flags.value % 2 == 1);
    if rest.None? { return None; }
    if rb.Remaining() != 0 { return None; }
    r := Some(Segment(h.value, rest.value.0, rest.value.1));
  }

  method VerifySegment(H: HashFn, encoded: bytes) returns (st: Status)
    ensures st == VerifyStatus(H, encoded)
  {
    hide Decode, RecordFormat.Decode, Merkle.MerkleRoot;
    var seg := DecodeSegment(encoded);
    if seg.None? { return Format; }
    var records := seg.value.records;
    for i := 0 to |records|
      invariant forall k :: 0 <= k < i ==> RecordFormat.Decode(records[k]).Some?
    {
      var rec := RecordFormat.DecodeRecord(records[i]);
      if rec.None? { return Format; }
    }
    if seg.value.hdr.root != ZERO32 {
      var computed;
      st, computed := Merkle.ComputeRoot(H, records);
      if st != Ok { return; }
      if computed != seg.value.hdr.root { return Format; }
    }
    if seg.value.sig.Some? { return Unsupported; }
    st := Ok;
  }

  method PeekSegmentNo(encoded: bytes) returns (no: Option<u64>)
    ensures no == PeekNo(encoded)
  {
    hide VarAt;
    if |encoded| < 6 { return None; }
    var rb := new ReadBuffer(encoded);
    var magic := rb.GetBytes(4);
    if magic != Some(MAGIC) { return None; }
    var flags := rb.GetU8();
    no := rb.GetVar();
  }

  method PeekSegmentNoPrev(encoded: bytes) returns (r: Option<(u64, Bytes32)>)
    ensures r == PeekNoPrev(encoded)
  {
    hide VarAt;
    if |encoded| < 6 { return None; }
    var rb := new ReadBuffer(encoded);
    var magic := rb.GetBytes(4);
    if magic != Some(MAGIC) { return None; }
    var flags := rb.GetU8();
    var no := rb.GetVar();
    if no.None? { return None; }
    var prev := rb.GetBytes(32);
    if prev.None? { return None; }
    r := Some((no.value, prev.value));
  }
}
