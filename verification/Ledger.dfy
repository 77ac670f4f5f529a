/** The ledger over a store: buffering, automatic flushing, flushing into a chained segment, and the
    verifier (src/ledger/ledger.c). */
module Ledger {
  import opened Base
  import opened Chain
  import opened RecordScan
  import RecordFormat
  import SegmentFormat
  import Merkle

  /** Targets are positive once a ledger is open: zeros are replaced by 256 records and 512 KiB. */
  datatype Options = Options(targetRecords: nat, targetBytes: nat, merkle: bool, requireSigned: bool)

  function Opened(o: Options): (r: Options)
    ensures r.targetRecords > 0 && r.targetBytes > 0 && r.merkle == o.merkle && r.requireSigned == o.requireSigned
    ensures r.targetRecords == o.targetRecords || (o.targetRecords == 0 && r.targetRecords == 256)
    ensures r.targetBytes == o.targetBytes || (o.targetBytes == 0 && r.targetBytes == 524288)
  {
    o.(targetRecords := if o.targetRecords == 0 then 256 else o.targetRecords,
       targetBytes := if o.targetBytes == 0 then 512 * 1024 else o.targetBytes)
  }

  // ---------------------------------------------------------------- steps on values

  /** Buffered records and committed segments. */
  datatype State = State(buf: seq<bytes>, chain: seq<bytes>)

  function TotalBytes(buf: seq<bytes>): nat
  { if buf == [] then 0 else TotalBytes(buf[..|buf| - 1]) + |buf[|buf| - 1]| }

  /** The segment a flush builds; number and count are 64-bit words. */
  function FlushedSegment(H: HashFn, o: Options, s: State, timestamp: u64): SegmentFormat.Segment {
    SegmentFormat.Segment(
      SegmentFormat.Header((|s.chain| + 1) % TWO64, PrevHash(H, s.chain, |s.chain|), |s.buf| % TWO64,
                           if o.merkle then Merkle.MerkleRoot(H, s.buf) else ZERO32, timestamp),
      s.buf, None)
  }

  /** More records than a Merkle tree takes. */
  predicate TooMany(o: Options, buf: seq<bytes>) { o.merkle && |buf| > Merkle.MAX_LEAVES }

  /** A flush writes the buffer as one segment, or leaves everything as it was. The fault is what goes wrong
      around it: memory runs out before the store is asked, or the write fails; Ok when nothing does. */
  function Flush(H: HashFn, backend: Backend, o: Options, s: State, timestamp: u64, fault: Status): (Status, State) {
    if s.buf == [] then (Ok, s)
    else if fault == OutOfMemory then (fault, s)
    else if TooMany(o, s.buf) then (Format, s)
    else
      var encoded := SegmentFormat.Encode(FlushedSegment(H, o, s, timestamp));
      var st := AppendStatus(H, backend, s.chain, encoded);
      if st != Ok then (st, s)
      else if fault != Ok then (fault, s)
      else (Ok, State([], s.chain + [encoded]))
  }

  function Admission(o: Options, record: bytes): Status {
    match RecordFormat.Decode(record)
    case None => Format
    case Some(r) => if o.requireSigned && r.sig.None? then CryptoError else Ok
  }

  predicate Full(o: Options, buf: seq<bytes>) { |buf| >= o.targetRecords || TotalBytes(buf) >= o.targetBytes }

  /** An admitted record for which there is memory stays in the buffer even when the flush it triggers fails. */
  function AppendRecord(H: HashFn, backend: Backend, o: Options, s: State, record: bytes, timestamp: u64,
                        memory: bool, fault: Status): (Status, State)
  {
    if Admission(o, record) != Ok then (Admission(o, record), s)
    else if !memory then (OutOfMemory, s)
    else
      var s' := s.(buf := s.buf + [record]);
      if Full(o, s'.buf) then Flush(H, backend, o, s', timestamp, fault) else (Ok, s')
  }

  datatype Op =
    | Append(record: bytes, timestamp: u64, memory: bool, fault: Status)
    | FlushNow(timestamp: u64, fault: Status)

  /** The operation puts a record into the buffer. */
  predicate Pushes(o: Options, op: Op) { op.Append? && Admission(o, op.record) == Ok && op.memory }

  function Step(H: HashFn, backend: Backend, o: Options, s: State, op: Op): (Status, State) {
    match op
    case Append(record, ts, memory, fault) => AppendRecord(H, backend, o, s, record, ts, memory, fault)
    case FlushNow(ts, fault) => Flush(H, backend, o, s, ts, fault)
  }

  function Run(H: HashFn, backend: Backend, o: Options, s: State, ops: seq<Op>): State
    decreases |ops|
  { if ops == [] then s else Run(H, backend, o, Step(H, backend, o, s, ops[0]).1, ops[1..]) }

  // ---------------------------------------------------------------- what writers keep

  predicate BufferOk(o: Options, buf: seq<bytes>) {
    forall i :: 0 <= i < |buf| ==> Admission(o, buf[i]) == Ok && |buf[i]| < TWO64
  }

  /** Writers never get near the limits of 64-bit counters in fewer than 2^63 calls. */
  predicate Room(s: State, calls: nat) { |s.chain| + |s.buf| + calls < TWO63 }

  predicate SizedOps(ops: seq<Op>) {
    forall i :: 0 <= i < |ops| && ops[i].Append? ==> |ops[i].record| < TWO64
  }

  ghost predicate Inv(H: HashFn, o: Options, s: State) {
    ChainOk(H, o.requireSigned, s.chain) && BufferOk(o, s.buf)
  }

  lemma AdmittedRecords(o: Options, buf: seq<bytes>)
    requires BufferOk(o, buf)
    ensures SegmentFormat.RecordsDecode(buf) && (o.requireSigned ==> RecordsSigned(buf))
  { hide RecordFormat.Decode; }

  /** What a flush writes passes the verifier at the next number, and both backends without an index take it. */
  lemma FlushLinks(H: HashFn, o: Options, s: State, timestamp: u64)
    requires BufferOk(o, s.buf) && Room(s, 0) && !TooMany(o, s.buf)
    ensures var seg := FlushedSegment(H, o, s, timestamp); var e := SegmentFormat.Encode(seg);
            && SegmentFormat.Decode(e) == Some(seg)
            && LinkStatus(H, o.requireSigned, e, |s.chain| + 1, PrevHash(H, s.chain, |s.chain|)) == Ok
            && LogAppendStatus(s.chain, e) == SqliteAppendStatus(H, s.chain, e) == Ok
  {
    hide SegmentFormat.Encode, SegmentFormat.Decode, SegmentFormat.RecordsDecode, RecordsSigned,
         Merkle.MerkleRoot, LogAppendStatus, SqliteAppendStatus, Admission;
    var seg := FlushedSegment(H, o, s, timestamp);
    assert SegmentFormat.Encodable(seg);
    SegmentFormat.RoundTrip(seg);
    AdmittedRecords(o, s.buf);
    var e := SegmentFormat.Encode(seg);
    LinkedIsTaken(H, o.requireSigned, s.chain, e);
  }

  /** There are verified chains of every length. */
  lemma {:induction false} VerifiedChain(H: HashFn, n: nat) returns (chain: seq<bytes>)
    requires n < TWO63
    ensures |chain| == n && ChainOk(H, false, chain)
  {
    hide LinkStatus, SegmentFormat.Encode, SegmentFormat.Decode, AppendStatus, FlushedSegment;
    if n == 0 { return []; }
    chain := VerifiedChain(H, n - 1);
    var o, s := Options(1, 1, false, false), State([], chain);
    FlushLinks(H, o, s, 0);
    var e := SegmentFormat.Encode(FlushedSegment(H, o, s, 0));
    ChainExtend(H, false, chain, e);
    chain := chain + [e];
  }

  lemma FlushKeeps(H: HashFn, backend: Backend, o: Options, s: State, timestamp: u64, fault: Status)
    requires Inv(H, o, s) && Room(s, 0)
    ensures Inv(H, o, Flush(H, backend, o, s, timestamp, fault).1)
    ensures backend != Indexed ==>
              Flush(H, backend, o, s, timestamp, fault) == Flush(H, Log, o, s, timestamp, fault)
  {
    hide SegmentFormat.Encode, SegmentFormat.Decode, LinkStatus, Admission, FlushedSegment, ChainOk, LogAppendStatus,
         SqliteAppendStatus, IndexedAppendStatus;
    if !TooMany(o, s.buf) {
      FlushLinks(H, o, s, timestamp);
      ChainExtend(H, o.requireSigned, s.chain, SegmentFormat.Encode(FlushedSegment(H, o, s, timestamp)));
    }
  }

  lemma StepKeeps(H: HashFn, backend: Backend, o: Options, s: State, op: Op)
    requires Inv(H, o, s) && Room(s, 1) && SizedOps([op])
    ensures Inv(H, o, Step(H, backend, o, s, op).1) && Room(Step(H, backend, o, s, op).1, 0)
    ensures backend != Indexed ==> Step(H, backend, o, s, op) == Step(H, Log, o, s, op)
    ensures |Step(H, backend, o, s, op).1.chain| + |Step(H, backend, o, s, op).1.buf| <= |s.chain| + |s.buf| + 1
  {
    hide Admission, ChainOk, Full, FlushedSegment, SegmentFormat.Encode, AppendStatus;
    match op
    case FlushNow(ts, fault) => FlushKeeps(H, backend, o, s, ts, fault);
    case Append(record, ts, _, fault) =>
      assert [op][0] == op;
      if Admission(o, record) == Ok { FlushKeeps(H, backend, o, s.(buf := s.buf + [record]), ts, fault); }
  }

  /** Everything the writers can produce is accepted by the verifier, whatever calls fail and whichever backend
      stores it; and the two backends without an index go through the same states. */
  lemma {:induction false} WriterVerifierAgreement(H: HashFn, backend: Backend, o: Options, s: State, ops: seq<Op>)
    requires Inv(H, o, s) && Room(s, |ops|) && SizedOps(ops)
    ensures Inv(H, o, Run(H, backend, o, s, ops))
    ensures backend != Indexed ==> Run(H, backend, o, s, ops) == Run(H, Log, o, s, ops)
    decreases |ops|
  {
    hide Inv, Step;
    if ops != [] {
      assert SizedOps([ops[0]]) && SizedOps(ops[1..]);
      StepKeeps(H, backend, o, s, ops[0]);
      WriterVerifierAgreement(H, backend, o, Step(H, backend, o, s, ops[0]).1, ops[1..]);
    }
  }

  lemma AgreementFromEmpty(H: HashFn, backend: Backend, o: Options, ops: seq<Op>)
    requires |ops| < TWO63 && SizedOps(ops)
    ensures ChainOk(H, o.requireSigned, Run(H, backend, o, State([], []), ops).chain)
  { WriterVerifierAgreement(H, backend, o, State([], []), ops); }

  // ---------------------------------------------------------------- conservation of records

  /** Records of all committed segments, in order. */
  function Committed(chain: seq<bytes>): seq<bytes>
  { if chain == [] then [] else Committed(chain[..|chain| - 1]) + RecordsIn(chain[|chain| - 1]) }

  /** The records of the pushing appends, in order, whether or not their flush succeeded. */
  function Pushed(o: Options, ops: seq<Op>): seq<bytes>
    decreases |ops|
  { if ops == [] then [] else (if Pushes(o, ops[0]) then [ops[0].record] else []) + Pushed(o, ops[1..]) }

  lemma CommittedNext(chain: seq<bytes>, s: bytes, seg: SegmentFormat.Segment)
    requires SegmentFormat.Decode(s) == Some(seg)
    ensures Committed(chain + [s]) == Committed(chain) + seg.records
  {
    hide SegmentFormat.Decode;
    assert (chain + [s])[..|chain|] == chain;
  }

  lemma FlushConserves(H: HashFn, backend: Backend, o: Options, s: State, timestamp: u64, fault: Status)
    requires BufferOk(o, s.buf) && Room(s, 0)
    ensures var s' := Flush(H, backend, o, s, timestamp, fault).1;
            Committed(s'.chain) + s'.buf == Committed(s.chain) + s.buf
  {
    hide SegmentFormat.Encode, SegmentFormat.Decode, Admission, AppendStatus, LinkStatus, Committed;
    if s.buf != [] && !TooMany(o, s.buf) {
      FlushLinks(H, o, s, timestamp);
      var seg := FlushedSegment(H, o, s, timestamp);
      CommittedNext(s.chain, SegmentFormat.Encode(seg), seg);
    }
  }

  lemma StepConserves(H: HashFn, backend: Backend, o: Options, s: State, op: Op)
    requires BufferOk(o, s.buf) && Room(s, 1) && SizedOps([op])
    ensures var s' := Step(H, backend, o, s, op).1;
            Committed(s'.chain) + s'.buf == Committed(s.chain) + s.buf + Pushed(o, [op])
  {
    hide Admission, Full, Flush, Committed;
    assert Pushed(o, [op][1..]) == [];
    match op
    case FlushNow(ts, fault) => FlushConserves(H, backend, o, s, ts, fault);
    case Append(record, ts, memory, fault) =>
      assert [op][0] == op;
      var s1 := s.(buf := s.buf + [record]);
      assert Committed(s.chain) + s1.buf == Committed(s.chain) + s.buf + [record];
      if Pushes(o, op) { FlushConserves(H, backend, o, s1, ts, fault); }
  }

  /** No record is lost, duplicated or reordered, across successful and failed flushes. */
  lemma {:induction false} RecordsConserved(H: HashFn, backend: Backend, o: Options, s: State, ops: seq<Op>)
    requires Inv(H, o, s) && Room(s, |ops|) && SizedOps(ops)
    ensures var s' := Run(H, backend, o, s, ops);
            Committed(s'.chain) + s'.buf == Committed(s.chain) + s.buf + Pushed(o, ops)
    decreases |ops|
  {
    hide Inv, Step, Committed, BufferOk, Pushed;
    if ops == [] {
      PushedNothing(o);
    } else {
      assert BufferOk(o, s.buf) by { InvBuffer(H, o, s); }
      assert SizedOps([ops[0]]) && SizedOps(ops[1..]);
      StepKeeps(H, backend, o, s, ops[0]);
      StepConserves(H, backend, o, s, ops[0]);
      var s1 := Step(H, backend, o, s, ops[0]).1;
      RecordsConserved(H, backend, o, s1, ops[1..]);
      PushedFirst(o, ops);
      Regroup(Committed(s.chain) + s.buf, Pushed(o, [ops[0]]), Pushed(o, ops[1..]));
    }
  }

  lemma InvBuffer(H: HashFn, o: Options, s: State)
    requires Inv(H, o, s)
    ensures BufferOk(o, s.buf)
  { }

  lemma Regroup(a: seq<bytes>, b: seq<bytes>, c: seq<bytes>)
    ensures (a + b) + c == a + (b + c)
  { }

  lemma PushedNothing(o: Options)
    ensures Pushed(o, []) == []
  { }

  lemma PushedFirst(o: Options, ops: seq<Op>)
    requires ops != []
    ensures Pushed(o, ops) == Pushed(o, [ops[0]]) + Pushed(o, ops[1..])
  { assert [ops[0]][1..] == []; }

  /** Under the signature policy every record of a verified chain is signed. */
  lemma {:induction false} SignedHistory(H: HashFn, chain: seq<bytes>, record: bytes)
    requires ChainOk(H, true, chain) && record in Committed(chain)
    ensures var r := RecordFormat.Decode(record); r.Some? && r.value.sig.Some?
    decreases |chain|
  {
    hide SegmentFormat.Decode, RecordFormat.Decode, ChainOk, SegmentFormat.RootFits;
    var n := |chain| - 1;
    if record in Committed(chain[..n]) {
      ChainPrefix(H, true, chain, n);
      SignedHistory(H, chain[..n], record);
    } else {
      ChainExact(H, true, chain);
      assert GoodSegment(H, true, chain, n) && record in RecordsIn(chain[n]);
    }
  }

  // ---------------------------------------------------------------- which records get in, and where they go

  /** Bytes that are no record are refused. */
  lemma RefusedBytes(H: HashFn, backend: Backend, o: Options, s: State, record: bytes, ts: u64,
                     memory: bool, fault: Status)
    requires RecordFormat.Decode(record).None?
    ensures AppendRecord(H, backend, o, s, record, ts, memory, fault) == (Format, s)
  { hide RecordFormat.Decode; }

  /** Every record gets in, unless it is unsigned where signatures are required or there is no memory for it: it ends
      the buffer as long as that stays below both targets, and otherwise a successful flush takes the whole buffer. */
  lemma AppendMeaning(H: HashFn, backend: Backend, o: Options, s: State, r: RecordFormat.Record, ts: u64,
                      memory: bool, fault: Status)
    requires RecordFormat.Encodable(r)
    ensures var rec := RecordFormat.Encode(r);
            var (st, s') := AppendRecord(H, backend, o, s, rec, ts, memory, fault);
            if o.requireSigned && r.sig.None? then (st, s') == (CryptoError, s)
            else if !memory then (st, s') == (OutOfMemory, s)
            else if |s.buf| + 1 < o.targetRecords && TotalBytes(s.buf) + |rec| < o.targetBytes
            then (st, s') == (Ok, State(s.buf + [rec], s.chain))
            else if st == Ok then s'.buf == [] && |s'.chain| == |s.chain| + 1 && s'.chain[..|s.chain|] == s.chain
            else s' == State(s.buf + [rec], s.chain)
  {
    hide RecordFormat.Encode, RecordFormat.Decode, AppendStatus, FlushedSegment, SegmentFormat.Encode;
    RecordFormat.RoundTrip(r);
    var rec := RecordFormat.Encode(r);
    assert (s.buf + [rec])[..|s.buf|] == s.buf;
  }

  // ---------------------------------------------------------------- what a flush writes into the header

  /** The root is that of the reference tree over the segment's own records, or zero when none is wanted. */
  ghost predicate OwnRoot(H: HashFn, o: Options, seg: SegmentFormat.Segment) {
    var n := |seg.records|;
    && n > 0 && n <= Merkle.Pow2(Merkle.Height(n))
    && seg.hdr.root == if o.merkle then Merkle.Tree(H, seg.records, Merkle.Height(n)) else ZERO32
  }

  lemma FlushStamps(H: HashFn, backend: Backend, o: Options, s: State, ts: u64, fault: Status)
    requires BufferOk(o, s.buf) && Room(s, 0) && s.buf != [] && Flush(H, backend, o, s, ts, fault).0 == Ok
    ensures var c := Flush(H, backend, o, s, ts, fault).1.chain;
            && |c| == |s.chain| + 1 && c[..|s.chain|] == s.chain
            && var d := SegmentFormat.Decode(c[|s.chain|]);
            d.Some? && d.value.records == s.buf && d.value.hdr.timestamp == ts && OwnRoot(H, o, d.value)
  {
    hide SegmentFormat.Encode, SegmentFormat.Decode, AppendStatus, LinkStatus, Admission, Merkle.MerkleRoot,
         Merkle.Tree,
         Merkle.Height, Merkle.Pow2;
    FlushLinks(H, o, s, ts);
    Merkle.MerkleIsTree(H, s.buf);
  }

  /** Every segment from position from on carries its own root and the time of one of the operations. */
  ghost predicate Stamped(H: HashFn, o: Options, chain: seq<bytes>, from: nat, times: set<u64>) {
    forall i :: from <= i < |chain| ==>
      var d := SegmentFormat.Decode(chain[i]); d.Some? && OwnRoot(H, o, d.value) && d.value.hdr.timestamp in times
  }

  function Times(ops: seq<Op>): set<u64> { set op | op in ops :: op.timestamp }

  lemma FlushKeepsStamps(H: HashFn, backend: Backend, o: Options, s: State, ts: u64, fault: Status, from: nat)
    requires BufferOk(o, s.buf) && Room(s, 0) && from <= |s.chain| && Stamped(H, o, s.chain, from, {ts})
    ensures var c := Flush(H, backend, o, s, ts, fault).1.chain; s.chain <= c && Stamped(H, o, c, from, {ts})
  {
    hide SegmentFormat.Encode, SegmentFormat.Decode, AppendStatus, Admission, OwnRoot, FlushedSegment;
    if s.buf != [] && Flush(H, backend, o, s, ts, fault).0 == Ok {
      FlushStamps(H, backend, o, s, ts, fault);
      var c := Flush(H, backend, o, s, ts, fault).1.chain;
      assert forall i :: from <= i < |s.chain| ==> c[i] == s.chain[i];
    }
  }

  lemma StepStamps(H: HashFn, backend: Backend, o: Options, s: State, op: Op)
    requires BufferOk(o, s.buf) && Room(s, 1) && SizedOps([op])
    ensures var c := Step(H, backend, o, s, op).1.chain; s.chain <= c && Stamped(H, o, c, |s.chain|, {op.timestamp})
  {
    hide Admission, Full, Flush, SegmentFormat.Decode, OwnRoot;
    match op
    case FlushNow(ts, fault) => FlushKeepsStamps(H, backend, o, s, ts, fault, |s.chain|);
    case Append(record, ts, _, fault) =>
      assert [op][0] == op;
      if Pushes(o, op) {
        FlushKeepsStamps(H, backend, o, s.(buf := s.buf + [record]), ts, fault, |s.chain|);
      }
  }

  /** Over every run, failing or not: each segment it adds has the root of its own records and one of its times. */
  lemma {:induction false} RunStamps(H: HashFn, backend: Backend, o: Options, s: State, ops: seq<Op>)
    requires Inv(H, o, s) && Room(s, |ops|) && SizedOps(ops)
    ensures var c := Run(H, backend, o, s, ops).chain; s.chain <= c && Stamped(H, o, c, |s.chain|, Times(ops))
    decreases |ops|
  {
    hide Inv, Step, BufferOk, SegmentFormat.Decode, OwnRoot;
    if ops != [] {
      assert BufferOk(o, s.buf) by { InvBuffer(H, o, s); }
      assert SizedOps([ops[0]]) && SizedOps(ops[1..]);
      StepKeeps(H, backend, o, s, ops[0]);
      StepStamps(H, backend, o, s, ops[0]);
      var s1, c := Step(H, backend, o, s, ops[0]).1, Run(H, backend, o, s, ops).chain;
      RunStamps(H, backend, o, s1, ops[1..]);
      assert ops[0] in ops && forall op :: op in ops[1..] ==> op in ops;
      assert forall i :: |s.chain| <= i < |s1.chain| ==> c[i] == s1.chain[i];
    }
  }

  // ---------------------------------------------------------------- batching

  /** One segment's worth: not empty, not more than the record target, and within the byte target
      before its last record. */
  predicate Batch(o: Options, records: seq<bytes>) {
    1 <= |records| <= o.targetRecords && TotalBytes(records[..|records| - 1]) < o.targetBytes
  }

  ghost predicate Batched(o: Options, chain: seq<bytes>) {
    forall i :: 0 <= i < |chain| ==> Batch(o, RecordsIn(chain[i]))
  }

  /** Every segment is one batch, and so is what is buffered. */
  ghost predicate Fine(o: Options, s: State) { Batched(o, s.chain) && (s.buf == [] || Batch(o, s.buf)) }

  /** Along the run no record is pushed onto a full buffer, which only a failed flush leaves behind. */
  predicate Steady(H: HashFn, backend: Backend, o: Options, s: State, ops: seq<Op>)
    decreases |ops|
  {
    ops == [] ||
    ((Pushes(o, ops[0]) ==> !Full(o, s.buf)) && Steady(H, backend, o, Step(H, backend, o, s, ops[0]).1, ops[1..]))
  }

  lemma BatchedNext(o: Options, chain: seq<bytes>, s: bytes, seg: SegmentFormat.Segment)
    requires SegmentFormat.Decode(s) == Some(seg)
    ensures Batched(o, chain + [s]) <==> Batched(o, chain) && Batch(o, seg.records)
  {
    hide SegmentFormat.Decode, Batch;
    var longer := chain + [s];
    assert RecordsIn(longer[|chain|]) == seg.records;
    assert forall i :: 0 <= i < |chain| ==> longer[i] == chain[i];
  }

  /** A flush, failing or not, neither breaks nor mends anything. */
  lemma FlushFine(H: HashFn, backend: Backend, o: Options, s: State, timestamp: u64, fault: Status)
    requires BufferOk(o, s.buf) && Room(s, 0)
    ensures Fine(o, Flush(H, backend, o, s, timestamp, fault).1) <==> Fine(o, s)
  {
    hide SegmentFormat.Encode, SegmentFormat.Decode, Admission, LinkStatus, Batch, AppendStatus, Batched;
    if s.buf != [] && !TooMany(o, s.buf) {
      FlushLinks(H, o, s, timestamp);
      var seg := FlushedSegment(H, o, s, timestamp);
      BatchedNext(o, s.chain, SegmentFormat.Encode(seg), seg);
    }
  }

  /** A pushed record keeps a batch exactly when the buffer was not full. */
  lemma PushFine(o: Options, s: State, record: bytes)
    requires o.targetRecords > 0 && o.targetBytes > 0
    ensures Fine(o, s.(buf := s.buf + [record])) <==> Fine(o, s) && !Full(o, s.buf)
  {
    hide Batched;
    var b := s.buf + [record];
    assert b[..|b| - 1] == s.buf;
  }

  lemma StepFine(H: HashFn, backend: Backend, o: Options, s: State, op: Op)
    requires o.targetRecords > 0 && o.targetBytes > 0
    requires BufferOk(o, s.buf) && Room(s, 1) && SizedOps([op])
    ensures Fine(o, Step(H, backend, o, s, op).1) <==> Fine(o, s) && (Pushes(o, op) ==> !Full(o, s.buf))
  {
    hide Admission, Fine, Flush, Full;
    match op
    case FlushNow(ts, fault) => FlushFine(H, backend, o, s, ts, fault);
    case Append(record, ts, memory, fault) =>
      assert [op][0] == op;
      if Pushes(o, op) {
        PushFine(o, s, record);
        FlushFine(H, backend, o, s.(buf := s.buf + [record]), ts, fault);
      }
  }

  /** Whatever fails, every segment is one batch, and the buffer too, exactly when no record was pushed onto a
      full buffer. A caller can test that before every append. */
  lemma {:induction false} BatchesExactly(H: HashFn, backend: Backend, o: Options, s: State, ops: seq<Op>)
    requires o.targetRecords > 0 && o.targetBytes > 0
    requires Inv(H, o, s) && Room(s, |ops|) && SizedOps(ops)
    ensures Fine(o, Run(H, backend, o, s, ops)) <==> Fine(o, s) && Steady(H, backend, o, s, ops)
    decreases |ops|
  {
    hide Inv, Step, Fine, Full, BufferOk, Pushes;
    if ops != [] {
      assert BufferOk(o, s.buf) by { InvBuffer(H, o, s); }
      assert SizedOps([ops[0]]) && SizedOps(ops[1..]);
      StepKeeps(H, backend, o, s, ops[0]);
      StepFine(H, backend, o, s, ops[0]);
      BatchesExactly(H, backend, o, Step(H, backend, o, s, ops[0]).1, ops[1..]);
    }
  }

  /** No flush that an append triggers fails; explicit ones may. */
  predicate AutoFlushesSucceed(H: HashFn, backend: Backend, o: Options, s: State, ops: seq<Op>)
    decreases |ops|
  {
    ops == [] ||
    var (st, s') := Step(H, backend, o, s, ops[0]);
    (Pushes(o, ops[0]) ==> st == Ok) && AutoFlushesSucceed(H, backend, o, s', ops[1..])
  }

  /** A successful flush leaves an empty buffer, so nothing is full between calls. */
  lemma StepBelow(H: HashFn, backend: Backend, o: Options, s: State, op: Op)
    requires o.targetRecords > 0 && o.targetBytes > 0 && !Full(o, s.buf)
    requires Pushes(o, op) ==> Step(H, backend, o, s, op).0 == Ok
    ensures !Full(o, Step(H, backend, o, s, op).1.buf)
  { hide Admission, AppendStatus, FlushedSegment; }

  /** Then every run is steady, from a buffer below both targets to one below both targets. */
  lemma {:induction false} SegmentsAreBatches(H: HashFn, backend: Backend, o: Options, s: State, ops: seq<Op>)
    requires o.targetRecords > 0 && o.targetBytes > 0 && AutoFlushesSucceed(H, backend, o, s, ops)
    requires Inv(H, o, s) && Room(s, |ops|) && SizedOps(ops) && Batched(o, s.chain) && !Full(o, s.buf)
    ensures Steady(H, backend, o, s, ops)
    ensures var s' := Run(H, backend, o, s, ops); Batched(o, s'.chain) && !Full(o, s'.buf)
    decreases |ops|
  {
    hide Inv, Step, Batched, Full, BufferOk, Pushes, Batch;
    assert Fine(o, s) by { BelowIsFine(o, s); }
    if ops != [] {
      assert BufferOk(o, s.buf) by { InvBuffer(H, o, s); }
      assert SizedOps([ops[0]]) && SizedOps(ops[1..]);
      StepKeeps(H, backend, o, s, ops[0]);
      StepFine(H, backend, o, s, ops[0]);
      StepBelow(H, backend, o, s, ops[0]);
      SegmentsAreBatches(H, backend, o, Step(H, backend, o, s, ops[0]).1, ops[1..]);
    }
  }

  lemma BelowIsFine(o: Options, s: State)
    requires Batched(o, s.chain) && !Full(o, s.buf)
    ensures Fine(o, s)
  { hide Batched; }

  /** A full buffer arises from any failed flush of one: whatever is pushed next is one record too many. */
  lemma FailedFlushOverfills(H: HashFn, backend: Backend, o: Options, s: State, ts: u64, fault: Status, ops: seq<Op>)
    requires o.targetRecords > 0 && o.targetBytes > 0 && Inv(H, o, s) && Room(s, |ops| + 1) && SizedOps(ops)
    requires Full(o, s.buf) && fault != Ok && ops != [] && Pushes(o, ops[0])
    ensures Flush(H, backend, o, s, ts, fault).1 == s
    ensures !Fine(o, Run(H, backend, o, s, [FlushNow(ts, fault)] + ops))
  {
    hide Inv, Fine, Full, AppendStatus, Pushes;
    assert s.buf != [] by { EmptyNotFull(o); }
    var all := [FlushNow(ts, fault)] + ops;
    assert all[0] == FlushNow(ts, fault) && all[1..] == ops;
    BatchesExactly(H, backend, o, s, ops);
  }

  lemma EmptyNotFull(o: Options)
    requires o.targetRecords > 0 && o.targetBytes > 0
    ensures !Full(o, [])
  { }
}
