/** The ledger object of src/ledger/ledger.c: its buffer fields and the methods that change them. */
module LedgerHandle {
  import opened Base
  import opened Chain
  import opened LogStore
  import opened Ledger
  import Buffers
  import Codec
  import Fields
  import Merkle
  import RecordFormat
  import SegmentFormat

  /** A buffered record with its id and whether it is signed. */
  datatype Entry = Entry(data: bytes, id: Bytes32, hasSig: bool)

  function Raws(buf: seq<Entry>): (r: seq<bytes>)
    ensures |r| == |buf| && forall i :: 0 <= i < |buf| ==> r[i] == buf[i].data
  { seq(|buf|, i requires 0 <= i < |buf| => buf[i].data) }

  // ---------------------------------------------------------------- sizes

  /** Everything buffered fits one segment in memory. */
  predicate Fits(buf: seq<bytes>) { TotalBytes(buf) + 10 * |buf| + 200 <= TWO63 }

  lemma {:induction false} RecordsSize(buf: seq<bytes>)
    requires forall i :: 0 <= i < |buf| ==> |buf[i]| < TWO64
    ensures |Fields.EncodeAll(SegmentFormat.Blobs(buf))| <= TotalBytes(buf) + 10 * |buf|
  {
    hide Codec.VarEncode;
    if buf == [] {
      assert SegmentFormat.Blobs(buf) == [];
    } else {
      var n := |buf| - 1;
      RecordsSize(buf[..n]);
      assert SegmentFormat.Blobs(buf) == SegmentFormat.Blobs(buf[..n]) + [Fields.Blob(buf[n])];
      Fields.EncodeAppend(SegmentFormat.Blobs(buf[..n]), [Fields.Blob(buf[n])]);
      SingleSize(Fields.Blob(buf[n]));
      Codec.EncodeAtMostTen(|buf[n]|);
    }
  }

  lemma ConsSize(v: Fields.Value, rest: seq<Fields.Value>)
    ensures Fields.EncodeAll([v] + rest) == Fields.EncodeValue(v) + Fields.EncodeAll(rest)
  {
    hide Fields.EncodeValue;
    assert ([v] + rest)[1..] == rest;
  }

  lemma HeadSize(h: SegmentFormat.Header)
    ensures |Fields.EncodeAll(SegmentFormat.HeadValues(h))| <= 94
  {
    hide Codec.VarEncode, Fields.EncodeAll;
    Codec.EncodeAtMostTen(h.no); Codec.EncodeAtMostTen(h.count); Codec.EncodeAtMostTen(h.timestamp);
    var v4: seq<Fields.Value> := [Fields.Num(h.timestamp)];
    var v3: seq<Fields.Value> := [Fields.Raw(h.root)] + v4;
    var v2: seq<Fields.Value> := [Fields.Num(h.count)] + v3;
    var v1: seq<Fields.Value> := [Fields.Raw(h.prev)] + v2;
    SingleSize(Fields.Num(h.timestamp));
    ConsSize(Fields.Raw(h.root), v4); ConsSize(Fields.Num(h.count), v3);
    ConsSize(Fields.Raw(h.prev), v2); ConsSize(Fields.Num(h.no), v1);
    assert SegmentFormat.HeadValues(h) == [Fields.Num(h.no)] + v1;
  }

  lemma SingleSize(v: Fields.Value)
    ensures Fields.EncodeAll([v]) == Fields.EncodeValue(v)
  {
    hide Fields.EncodeValue;
    assert [v][1..] == [];
  }

  lemma SegmentSize(seg: SegmentFormat.Segment)
    requires SegmentFormat.Encodable(seg) && seg.sig.None?
    ensures |SegmentFormat.Encode(seg)| <= 99 + TotalBytes(seg.records) + 10 * |seg.records|
  {
    hide Fields.EncodeAll;
    HeadSize(seg.hdr);
    RecordsSize(seg.records);
    assert SegmentFormat.RestValues(seg.records, None) == SegmentFormat.Blobs(seg.records);
  }

  lemma EmptyBuffer(o: Options)
    ensures Raws([]) == [] && TotalBytes([]) == 0 && BufferOk(o, [])
  { }

  function FaultOf(memory: bool, io: Io): Status
  { if !memory then OutOfMemory else if io == Succeeds then Ok else IoError }

  // ---------------------------------------------------------------- the object

  class Handle {
    const store: Store
    const o: Options
    var buf: seq<Entry>
    var bufCap: u64
    var bufBytes: nat

    ghost predicate Valid()
      reads this, store
    {
      && store.Valid() && |buf| <= bufCap && bufBytes == TotalBytes(Raws(buf))
      && BufferOk(o, Raws(buf)) && Fits(Raws(buf)) && Room(Abstract(), 0)
      && forall i :: 0 <= i < |buf| ==> buf[i].id == store.H(buf[i].data)
    }

    ghost function Abstract(): Ledger.State
      reads this, store
    { Ledger.State(Raws(buf), store.chain) }

    constructor (store: Store, options: Options)
      requires store.Valid() && |store.chain| < TWO63
      ensures Valid() && this.store == store && o == Opened(options) && Abstract() == Ledger.State([], store.chain)
    {
      this.store, this.o := store, Opened(options);
      buf, bufCap, bufBytes := [], 0, 0;
    }

    method ClearBuffer()
      modifies this`buf, this`bufBytes
      ensures buf == [] && bufBytes == 0
    { buf, bufBytes := [], 0; }

    method BuildSegment(timestamp: u64) returns (st: Status, seg: SegmentFormat.Segment)
      requires Valid() && Room(Abstract(), 1)
      ensures st == if TooMany(o, Raws(buf)) then Format else Ok
      ensures st == Ok ==> seg == FlushedSegment(store.H, o, Abstract(), timestamp)
    {
      hide Merkle.MerkleRoot, Holds, BufferOk, TotalBytes;
      var newNo, prev := 1, ZERO32;
      if store.hasTip { newNo, prev := store.tipNo + 1, store.tipHash; }
      var recs := Raws(buf);
      var root := ZERO32;
      st := Ok;
      if o.merkle { st, root := Merkle.ComputeRoot(store.H, recs); }
      seg := SegmentFormat.Segment(SegmentFormat.Header(newNo, prev, |recs|, root, timestamp), recs, None);
    }

    /** memory tells whether every allocation on the way succeeds. */
    method Flush(timestamp: u64, memory: bool, io: Io) returns (st: Status)
      requires Valid() && Room(Abstract(), 1)
      modifies this`buf, this`bufBytes, store
      ensures Valid()
      ensures (st, Abstract()) == Ledger.Flush(store.H, Log, o, old(Abstract()), timestamp, FaultOf(memory, io))
    {
      hide SegmentFormat.Encode, SegmentFormat.Decode, Holds, LogAppendStatus, SqliteAppendStatus,
           Admission, LinkStatus,
           Passed, TotalBytes;
      if |buf| == 0 { return Ok; }
      if !memory { return OutOfMemory; }
      var seg;
      st, seg := BuildSegment(timestamp);
      if st != Ok { return; }
      SegmentSize(seg);
      FlushLinks(store.H, o, Abstract(), timestamp);
      var encoded;
      st, encoded := SegmentFormat.EncodeSegment(seg, None);
      hide FlushedSegment;
      var no, hash;
      ghost var trail;
      st, no, hash, trail := store.Append(encoded, io, None);
      if st != Ok { return; }
      ClearBuffer();
      EmptyBuffer(o);
    }

    method EnsureCapacity(want: u64, memory: bool) returns (st: Status)
      modifies this`bufCap
      ensures st == Ok || st == OutOfMemory
      ensures st == Ok ==> want <= bufCap && bufCap >= old(bufCap)
      ensures st != Ok ==> bufCap == old(bufCap) < want
      ensures want <= TWO63 ==> (st == Ok <==> memory || want <= old(bufCap))
    {
      if want <= bufCap { return Ok; }
      var grown;
      st, grown := Buffers.GrowCapacity(bufCap, 64, want);
      if st != Ok { return; }
      if !memory { return OutOfMemory; }
      bufCap := grown;
    }

    method Push(record: bytes, id: Bytes32, hasSig: bool)
      requires Valid() && |buf| < bufCap && Room(Abstract(), 1) && Fits(Raws(buf) + [record])
      requires Admission(o, record) == Ok && |record| < TWO64 && id == store.H(record)
      modifies this`buf, this`bufBytes
      ensures Valid() && Raws(buf) == old(Raws(buf)) + [record] && bufBytes == TotalBytes(Raws(buf))
    {
      hide Holds, Admission;
      assert Raws(buf + [Entry(record, id, hasSig)]) == Raws(buf) + [record];
      assert (Raws(buf) + [record])[..|buf|] == Raws(buf);
      buf := buf + [Entry(record, id, hasSig)];
      bufBytes := bufBytes + |record|;
    }

    /** copied tells whether there is memory for the copy of the record, grows for a larger buffer when one is
        needed, flushes for a flush. */
    method AppendRecord(record: bytes, timestamp: u64, copied: bool, grows: bool, flushes: bool, io: Io)
      returns (st: Status, id: Bytes32)
      requires Valid() && Room(Abstract(), 2) && |record| < TWO64 && Fits(Raws(buf) + [record])
      modifies this, store
      ensures Valid()
      ensures var memory := copied && (grows || |old(buf)| < old(bufCap));
              (st, Abstract()) == Ledger.AppendRecord(store.H, Log, o, old(Abstract()), record, timestamp, memory,
                                                      FaultOf(flushes, io))
      ensures Admission(o, record) == Ok ==> id == store.H(record)
    {
      hide RecordFormat.Decode, Ledger.Flush, Holds, BufferOk, TotalBytes, Fits;
      id := ZERO32;
      var r := RecordFormat.DecodeRecord(record);
      if r.None? { return Format, id; }
      var hasSig := r.value.sig.Some?;
      if o.requireSigned && !hasSig { return CryptoError, id; }
      id := store.H(record);
      if !copied { return OutOfMemory, id; }
      st := EnsureCapacity(|buf| + 1, grows);
      if st != Ok { return; }
      Push(record, id, hasSig);
      if |buf| >= o.targetRecords || bufBytes >= o.targetBytes {
        st := Flush(timestamp, flushes, io);
        return;
      }
      st := Ok;
    }
  }
}
