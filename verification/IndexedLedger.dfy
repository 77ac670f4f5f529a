/** A ledger on a SQLite store with a record index kept since genesis (src/ledger/ledger.c over
    src/store/store_sqlite.c): when flushes go through, and for how long they do not. */
module IndexedLedger {
  import opened Base
  import opened Chain
  import opened RecordScan
  import opened Ledger
  import RecordFormat
  import SegmentFormat

  /** With the index on, a segment is taken exactly when it links, it and its records decode, and no record
      repeats one of the chain or of the segment (as far as its hash tells). */
  lemma AppendExact(H: HashFn, chain: seq<bytes>, s: bytes)
    ensures AppendStatus(H, Indexed, chain, s) == Ok <==>
      && SqliteAppendStatus(H, chain, s) == Ok
      && SegmentFormat.Decode(s).Some?
      && Insertable(H, ScanIds(H, chain), SegmentFormat.Decode(s).value.records)
  {
    hide SegmentFormat.Decode, SqliteAppendStatus, ScanIds, InsertStatus, Insertable;
    if SegmentFormat.Decode(s).Some? {
      InsertStatusExact(H, ScanIds(H, chain), SegmentFormat.Decode(s).value.records);
    }
  }

  /** Some buffered record has the id of another one, or of one in the chain. */
  ghost predicate Blocked(H: HashFn, s: State) {
    || (exists i, e :: 0 <= i < |s.buf| && e in Scan(s.chain) && H(s.buf[i]) == H(e.rec))
    || (exists i, j :: 0 <= i < j < |s.buf| && H(s.buf[i]) == H(s.buf[j]))
  }

  /** A ledger flush goes through exactly when the buffer is not blocked. */
  lemma IndexedFlushExact(H: HashFn, o: Options, s: State, timestamp: u64)
    requires BufferOk(o, s.buf) && Room(s, 0) && !TooMany(o, s.buf)
    ensures AppendStatus(H, Indexed, s.chain, SegmentFormat.Encode(FlushedSegment(H, o, s, timestamp))) == Ok <==>
            !Blocked(H, s)
  {
    hide SegmentFormat.Decode, SegmentFormat.Encode, LinkStatus, SqliteAppendStatus, Scan, AppendStatus, Admission,
         RecordFormat.Decode;
    FlushLinks(H, o, s, timestamp);
    AdmittedRecords(o, s.buf);
    AppendExact(H, s.chain, SegmentFormat.Encode(FlushedSegment(H, o, s, timestamp)));
    assert forall e :: e in Scan(s.chain) ==> H(e.rec) in ScanIds(H, s.chain);
  }

  /** Pushing more records does not unblock a buffer. */
  lemma PushKeepsBlocked(H: HashFn, s: State, record: bytes)
    requires Blocked(H, s)
    ensures Blocked(H, s.(buf := s.buf + [record]))
  {
    hide Scan;
    var b := s.buf + [record];
    if i, e :| 0 <= i < |s.buf| && e in Scan(s.chain) && H(s.buf[i]) == H(e.rec) {
      assert b[i] == s.buf[i];
    } else {
      var i, j :| 0 <= i < j < |s.buf| && H(s.buf[i]) == H(s.buf[j]);
      assert b[i] == s.buf[i] && b[j] == s.buf[j];
    }
  }

  /** Either reason for which a buffer cannot be flushed. */
  ghost predicate Jammed(H: HashFn, o: Options, s: State) { Blocked(H, s) || TooMany(o, s.buf) }

  /** Unless something else fails, a flush goes through exactly when the buffer is not jammed. */
  lemma FlushExact(H: HashFn, o: Options, s: State, timestamp: u64)
    requires BufferOk(o, s.buf) && Room(s, 0) && s.buf != []
    ensures Flush(H, Indexed, o, s, timestamp, Ok).0 == Ok <==> !Jammed(H, o, s)
  {
    hide SegmentFormat.Encode, AppendStatus, Admission, Blocked;
    if !TooMany(o, s.buf) { IndexedFlushExact(H, o, s, timestamp); }
  }

  lemma JammedFlush(H: HashFn, o: Options, s: State, timestamp: u64, fault: Status)
    requires BufferOk(o, s.buf) && Room(s, 0) && Jammed(H, o, s)
    ensures Flush(H, Indexed, o, s, timestamp, fault).0 != Ok && Flush(H, Indexed, o, s, timestamp, fault).1 == s
  {
    hide SegmentFormat.Encode, AppendStatus, Admission, Scan;
    if !TooMany(o, s.buf) { IndexedFlushExact(H, o, s, timestamp); }
  }

  /** Whatever jams s jams s' too. */
  ghost predicate StaysJammed(H: HashFn, o: Options, s: State, s': State) {
    && s'.chain == s.chain && s.buf <= s'.buf
    && (Blocked(H, s) ==> Blocked(H, s')) && (TooMany(o, s.buf) ==> TooMany(o, s'.buf))
  }

  lemma JammedStep(H: HashFn, o: Options, s: State, op: Op)
    requires BufferOk(o, s.buf) && Room(s, 1) && SizedOps([op]) && Jammed(H, o, s)
    ensures var (st, s') := Step(H, Indexed, o, s, op); StaysJammed(H, o, s, s') && (op.FlushNow? ==> st != Ok)
  {
    hide Blocked, Flush, Admission, Full;
    match op
    case FlushNow(ts, fault) => JammedFlush(H, o, s, ts, fault);
    case Append(record, ts, memory, fault) =>
      assert [op][0] == op;
      if Pushes(o, op) {
        if Blocked(H, s) { PushKeepsBlocked(H, s, record); }
        JammedFlush(H, o, s.(buf := s.buf + [record]), ts, fault);
      }
  }

  /** Once jammed, for good: no further append or flush commits anything, and the buffer only grows. */
  lemma {:induction false} JammedForever(H: HashFn, o: Options, s: State, ops: seq<Op>)
    requires Inv(H, o, s) && Room(s, |ops|) && SizedOps(ops) && Jammed(H, o, s)
    ensures StaysJammed(H, o, s, Run(H, Indexed, o, s, ops))
    decreases |ops|
  {
    hide Inv, Step, Blocked, BufferOk;
    if ops != [] {
      assert BufferOk(o, s.buf) by { InvBuffer(H, o, s); }
      assert SizedOps([ops[0]]) && SizedOps(ops[1..]);
      StepKeeps(H, Indexed, o, s, ops[0]);
      JammedStep(H, o, s, ops[0]);
      JammedForever(H, o, Step(H, Indexed, o, s, ops[0]).1, ops[1..]);
    }
  }

  // ---------------------------------------------------------------- which runs block

  ghost predicate DistinctIds(H: HashFn, records: seq<bytes>) {
    forall i, j :: 0 <= i < j < |records| ==> H(records[i]) != H(records[j])
  }

  /** The scan meets exactly the committed records. */
  lemma {:induction false} ScanIsCommitted(chain: seq<bytes>, record: bytes)
    ensures (exists e :: e in Scan(chain) && e.rec == record) <==> record in Committed(chain)
  {
    hide RecordsIn;
    if chain != [] {
      var front := chain[..|chain| - 1];
      ScanIsCommitted(front, record);
      var last := RecordsIn(chain[|chain| - 1]);
      var es := SegmentEntries(|chain|, last);
      if record in last {
        var i :| 0 <= i < |last| && last[i] == record;
        assert es[i].rec == record && es[i] in Scan(chain);
      }
      if e :| e in Scan(front) && e.rec == record { assert e in Scan(chain); }
      if e :| e in Scan(chain) && e.rec == record { assert e in Scan(front) || e in es; }
    }
  }

  /** Over a chain without repetitions, a buffer is blocked exactly when it adds one. */
  lemma BlockedIsRepeat(H: HashFn, s: State)
    requires DistinctIds(H, Committed(s.chain))
    ensures Blocked(H, s) <==> !DistinctIds(H, Committed(s.chain) + s.buf)
  {
    hide Scan, Committed;
    var done, all := Committed(s.chain), Committed(s.chain) + s.buf;
    if i, e :| 0 <= i < |s.buf| && e in Scan(s.chain) && H(s.buf[i]) == H(e.rec) {
      ScanIsCommitted(s.chain, e.rec);
      var k :| 0 <= k < |done| && done[k] == e.rec;
      assert all[k] == e.rec && all[|done| + i] == s.buf[i];
    }
    if i, j :| 0 <= i < j < |s.buf| && H(s.buf[i]) == H(s.buf[j]) {
      assert all[|done| + i] == s.buf[i] && all[|done| + j] == s.buf[j];
    }
    if i, j :| 0 <= i < j < |all| && H(all[i]) == H(all[j]) {
      assert j >= |done| && all[j] == s.buf[j - |done|];
      if i < |done| {
        assert all[i] == done[i] && done[i] in done;
        ScanIsCommitted(s.chain, done[i]);
        var e :| e in Scan(s.chain) && e.rec == done[i];
        assert H(s.buf[j - |done|]) == H(e.rec);
      } else {
        assert all[i] == s.buf[i - |done|];
      }
    }
  }

  lemma FlushKeepsDistinct(H: HashFn, o: Options, s: State, timestamp: u64, fault: Status)
    requires BufferOk(o, s.buf) && Room(s, 0) && DistinctIds(H, Committed(s.chain))
    ensures DistinctIds(H, Committed(Flush(H, Indexed, o, s, timestamp, fault).1.chain))
  {
    hide SegmentFormat.Encode, AppendStatus, Admission, Committed, DistinctIds, Blocked, FlushedSegment;
    FlushConserves(H, Indexed, o, s, timestamp, fault);
    if !TooMany(o, s.buf) { IndexedFlushExact(H, o, s, timestamp); }
    BlockedIsRepeat(H, s);
    var s' := Flush(H, Indexed, o, s, timestamp, fault).1;
    if s'.buf == [] { assert Committed(s'.chain) + s'.buf == Committed(s'.chain); }
  }

  lemma StepKeepsDistinct(H: HashFn, o: Options, s: State, op: Op)
    requires BufferOk(o, s.buf) && Room(s, 1) && SizedOps([op]) && DistinctIds(H, Committed(s.chain))
    ensures DistinctIds(H, Committed(Step(H, Indexed, o, s, op).1.chain))
  {
    hide Committed, DistinctIds, Flush, Admission, Full;
    match op
    case FlushNow(ts, fault) => FlushKeepsDistinct(H, o, s, ts, fault);
    case Append(record, ts, memory, fault) =>
      assert [op][0] == op;
      if Pushes(o, op) { FlushKeepsDistinct(H, o, s.(buf := s.buf + [record]), ts, fault); }
  }

  lemma {:induction false} RunKeepsDistinct(H: HashFn, o: Options, s: State, ops: seq<Op>)
    requires Inv(H, o, s) && Room(s, |ops|) && SizedOps(ops) && DistinctIds(H, Committed(s.chain))
    ensures DistinctIds(H, Committed(Run(H, Indexed, o, s, ops).chain))
    decreases |ops|
  {
    hide Inv, Step, BufferOk, Committed, DistinctIds;
    if ops != [] {
      assert BufferOk(o, s.buf) by { InvBuffer(H, o, s); }
      assert SizedOps([ops[0]]) && SizedOps(ops[1..]);
      StepKeeps(H, Indexed, o, s, ops[0]);
      StepKeepsDistinct(H, o, s, ops[0]);
      RunKeepsDistinct(H, o, Step(H, Indexed, o, s, ops[0]).1, ops[1..]);
    }
  }

  /** A run on an indexed store is jammed in the end exactly when two pushed records share an id, or its buffer has
      outgrown a Merkle tree. */
  lemma JamsExactly(H: HashFn, o: Options, ops: seq<Op>)
    requires |ops| < TWO63 && SizedOps(ops)
    ensures var s := Run(H, Indexed, o, State([], []), ops);
            && (Blocked(H, s) <==> !DistinctIds(H, Pushed(o, ops)))
            && (Jammed(H, o, s) <==> !DistinctIds(H, Pushed(o, ops)) || TooMany(o, s.buf))
  {
    hide Committed, DistinctIds, Blocked, Run, Pushed, SizedOps;
    var s0 := State([], []);
    assert Committed([]) == [] && DistinctIds(H, []) by { NothingCommitted(H); }
    RunKeepsDistinct(H, o, s0, ops);
    RecordsConserved(H, Indexed, o, s0, ops);
    var s := Run(H, Indexed, o, s0, ops);
    assert Committed(s.chain) + s.buf == Pushed(o, ops);
    BlockedIsRepeat(H, s);
  }

  lemma NothingCommitted(H: HashFn)
    ensures Committed([]) == [] && DistinctIds(H, [])
  { }
}
