/** The SQLite store (src/store/store_sqlite.c): its tables are maps, an append is one transaction, and the
    record index is compared with a scan of the chain. */
module SqliteStore {
  import opened Base
  import opened SegmentFormat
  import opened RecordScan
  import opened Chain
  import opened RecordIndex
  import opened RecordQuery
  import RecordFormat

  // ---------------------------------------------------------------- the tables

  datatype SegmentRow = SegmentRow(hash: Bytes32, data: bytes)

  /** Exactly the segments of the chain, each under its number and with its hash. */
  ghost predicate HoldsSegments(H: HashFn, segments: map<u64, SegmentRow>, chain: seq<bytes>) {
    && (forall k :: k in segments ==> 1 <= k <= |chain| && segments[k] == SegmentRow(H(chain[k - 1]), chain[k - 1]))
    && (forall k: u64 :: 1 <= k <= |chain| ==> k in segments)
  }

  // ---------------------------------------------------------------- appending and reading back

  /** Which statement of an append the engine fails, if any. */
  datatype Engine = Works | BeginFails | SegmentFails | RowFails(row: nat) | CommitFails

  lemma SegmentsGrow(H: HashFn, segments: map<u64, SegmentRow>, chain: seq<bytes>, s: bytes)
    requires HoldsSegments(H, segments, chain) && |chain| + 1 < TWO63
    ensures HoldsSegments(H, segments[|chain| + 1 := SegmentRow(H(s), s)], chain + [s])
  { }

  /** The tables hold the chain, and an index kept since genesis indexes its scan. Numbers are below 2^63 and
      blobs shorter than 2^31 bytes. */
  ghost predicate Holds(H: HashFn, indexing: bool, segments: map<u64, SegmentRow>, records: Table, chain: seq<bytes>) {
    && |chain| < TWO63
    && HoldsSegments(H, segments, chain)
    && (forall i :: 0 <= i < |chain| ==> |chain[i]| < TWO31)
    && (indexing ==> IndexOf(H, records, Scan(chain)))
  }

  lemma HoldsOne(H: HashFn, segments: map<u64, SegmentRow>, a: seq<bytes>, b: seq<bytes>)
    requires HoldsSegments(H, segments, a) && HoldsSegments(H, segments, b) && |a| < TWO63 && |b| < TWO63
    ensures a == b
  {
    if |a| > 0 { assert (|a| as u64) in segments; }
    if |b| > 0 { assert (|b| as u64) in segments; }
    forall i | 0 <= i < |a| ensures a[i] == b[i] { assert ((i + 1) as u64) in segments; }
  }

  predicate Greatest(ks: set<u64>, m: u64) { m in ks && forall k :: k in ks ==> k <= m }

  lemma {:induction false} GreatestExists(ks: set<u64>)
    requires ks != {}
    ensures exists m :: Greatest(ks, m)
  {
    var x :| x in ks;
    var rest := ks - {x};
    assert forall k :: k in ks ==> k == x || k in rest;
    if rest == {} {
      assert Greatest(ks, x);
    } else {
      GreatestExists(rest);
      var m :| Greatest(rest, m);
      assert Greatest(ks, if m < x then x else m);
    }
  }

  lemma LoadedTip(H: HashFn, segments: map<u64, SegmentRow>, chain: seq<bytes>)
    requires HoldsSegments(H, segments, chain) && |chain| < TWO63
    ensures segments.Keys == {} ==> chain == []
    ensures forall no :: Greatest(segments.Keys, no) ==> TipOf(H, chain) == Some((no as nat, segments[no].hash))
  { if chain != [] { assert (|chain| as u64) in segments; } }

  class Store {
    const H: HashFn
    const indexing: bool
    var segments: map<u64, SegmentRow>
    var records: Table
    var hasTip: bool
    var tipNo: u64
    var tipHash: Bytes32
    ghost var chain: seq<bytes>

    function Tip(): Option<(nat, Bytes32)>
      reads this
    { if hasTip then var no: nat := tipNo; Some((no, tipHash)) else None }

    /** The tables hold the chain and the tip describes its end. */
    ghost predicate Valid()
      reads this
    {
      Holds(H, indexing, segments, records, chain) && Tip() == TipOf(H, chain)
    }

    /** Opening loads the tip from the row with the greatest number; tables that hold a chain are recovered as
        exactly that chain. */
    constructor (H: HashFn, indexing: bool, segments: map<u64, SegmentRow>, records: Table)
      ensures this.H == H && this.indexing == indexing && this.segments == segments && this.records == records
      ensures forall c :: Holds(H, indexing, segments, records, c) ==> Valid() && chain == c
    {
      this.H, this.indexing, this.segments, this.records := H, indexing, segments, records;
      ghost var held := if c :| Holds(H, indexing, segments, records, c) then c else [];
      chain := held;
      hasTip, tipNo, tipHash := false, 0, ZERO32;
      if segments.Keys != {} {
        GreatestExists(segments.Keys);
        var no: u64 :| Greatest(segments.Keys, no);
        hasTip, tipNo, tipHash := true, no, segments[no].hash;
      }
      new;
      hide Scan, IndexOf;
      forall c | Holds(H, indexing, segments, records, c) ensures Valid() && chain == c {
        HoldsOne(H, segments, c, held);
        LoadedTip(H, segments, c);
      }
    }

    /** The store's place among the backends. */
    function Kind(): Backend { if indexing then Indexed else Sqlite }

    /** The insert loop. Rows inserted before a failure stay until the caller rolls back. */
    method InsertRecords(no: u64, s: bytes, engine: Engine, ghost scan: seq<Entry>) returns (st: Status)
      modifies this`records
      ensures engine == Works ==>
        st == if Decode(s).None? then Format else InsertStatus(H, old(records).Keys, Decode(s).value.records)
      ensures st == Ok ==> Decode(s).Some? && InsertStatus(H, old(records).Keys, Decode(s).value.records) == Ok
      ensures st == Ok && IndexOf(H, old(records), scan) ==>
        IndexOf(H, records, scan + SegmentEntries(no, Decode(s).value.records))
    {
      hide Decode, RecordFormat.Decode, IndexOf;
      var seg := DecodeSegment(s);
      if seg.None? { return Format; }
      var rs := seg.value.records;
      ghost var es := SegmentEntries(no, rs);
      ghost var ids := records.Keys;
      assert scan + es[..0] == scan && rs[0..] == rs;
      for i := 0 to |rs|
        invariant InsertStatus(H, ids, rs) == InsertStatus(H, records.Keys, rs[i..])
        invariant IndexOf(H, old(records), scan) ==> IndexOf(H, records, scan + es[..i])
      {
        assert rs[i..][0] == rs[i] && rs[i..][1..] == rs[i + 1..];
        var rid := H(rs[i]);
        var rec := RecordFormat.DecodeRecord(rs[i]);
        if rec.None? { return Format; }
        if rid in records { return IoError; }
        if engine == RowFails(i) { return IoError; }
        if IndexOf(H, old(records), scan) { IndexGrows(H, records, scan + es[..i], es[i]); }
        assert scan + es[..i] + [es[i]] == scan + es[..i + 1];
        ghost var known := records.Keys;
        records := records[rid := RowOf(no, i, rs[i], rec.value.meta)];
        assert records.Keys == known + {rid};
      }
      assert es[..|rs|] == es;
      st := Ok;
    }

    /** The checks on number and previous hash. */
    method CheckLink(s: bytes) returns (st: Status, no: u64)
      requires Valid() && |chain| + 1 < TWO63
      ensures st == SqliteAppendStatus(H, chain, s)
      ensures st == Ok ==> no == |chain| + 1
    {
      hide PeekNoPrev, IndexOf, HoldsSegments, Scan;
      no := 0;
      var peeked := PeekSegmentNoPrev(s);
      if peeked.None? { return Format, no; }
      var expected := if hasTip then tipNo + 1 else 1;
      if peeked.value.0 != expected { return InvalidArgument, no; }
      if peeked.value.1 != (if hasTip then tipHash else ZERO32) { return Format, no; }
      return Ok, expected;
    }

    /** A transaction: either everything is added or everything stays as it was. */
    method Append(s: bytes, engine: Engine) returns (st: Status, no: u64, hash: Bytes32)
      requires Valid() && |chain| + 1 < TWO63 && |s| < TWO31
      modifies this
      ensures Valid()
      ensures engine == Works ==> st == AppendStatus(H, Kind(), old(chain), s)
      ensures st == Ok ==> AppendStatus(H, Kind(), old(chain), s) == Ok
      ensures st == Ok ==> chain == old(chain) + [s] && Some((no as nat, hash)) == Tip()
      ensures st != Ok ==>
                chain == old(chain) && segments == old(segments) && records == old(records) && Tip() == old(Tip())
    {
      hide Decode, SqliteAppendStatus, IndexOf, HoldsSegments, Scan, ScanIds, InsertStatus;
      hash := ZERO32;
      var expected: u64;
      st, expected := CheckLink(s);
      no := 0;
      if st != Ok { return; }
      hash := H(s);
      if engine == BeginFails { return IoError, no, hash; }
      var saved, savedRecords := segments, records;
      if engine == SegmentFails { return IoError, no, hash; }
      SegmentsGrow(H, segments, chain, s);
      segments := segments[expected := SegmentRow(hash, s)];
      if indexing {
        IndexedIds(H, records, chain);
        st := InsertRecords(expected, s, engine, Scan(chain));
        if st != Ok {
          segments, records := saved, savedRecords;
          return st, no, hash;
        }
        ScanGrows(chain, s);
      }
      if engine == CommitFails {
        segments, records := saved, savedRecords;
        return IoError, no, hash;
      }
      tipNo, tipHash, hasTip := expected, hash, true;
      chain := chain + [s];
      st, no := Ok, expected;
    }

    /** answers tells whether the engine carries out the statement. */
    method ReadSegment(no: u64, answers: bool) returns (st: Status, s: bytes)
      requires Valid()
      ensures st == if !answers then IoError else if 1 <= no <= |chain| then Ok else NotFound
      ensures st == Ok ==> s == chain[no - 1]
    {
      if !answers { return IoError, []; }
      if no !in segments { return NotFound, []; }
      return Ok, segments[no].data;
    }

    method GetRecord(id: Bytes32, answers: bool) returns (st: Status, rec: bytes)
      requires Valid()
      ensures st == if !indexing then Unsupported else if !answers then IoError
                    else if Find(H, Scan(chain), id).Some? then Ok else NotFound
      ensures st == Ok ==> Some(rec) == Find(H, Scan(chain), id)
    {
      hide Scan, Find, IndexOf;
      if !indexing { return Unsupported, []; }
      if !answers { return IoError, []; }
      LookupIsSearch(H, records, Scan(chain), id);
      if id !in records { return NotFound, []; }
      return Ok, records[id].rec;
    }

    /** rows is what the engine returns for the query; it may fail after handing out some of them (lost). calls
        is what the callback is given. */
    method QueryRecords(filter: Option<Filter>, rows: seq<Bytes32>, lost: Option<nat>, cb: Hit -> Status)
      returns (st: Status, calls: seq<Hit>)
      requires Valid()
      requires indexing ==>
        var f := if filter.Some? then filter.value else ANY; Answers(records, WhereOf(f), f.limit, rows)
      ensures !indexing ==> st == Unsupported && calls == []
      ensures var f := if filter.Some? then filter.value else ANY; var scan := Scan(chain);
        indexing ==>
          && Delivered(cb, Hits(H, Cut(Keep(f, true, scan), f.limit)), lost, calls, st)
          && (Harmless(f, scan) ==> Delivered(cb, Hits(H, Cut(Keep(f, false, scan), f.limit)), lost, calls, st))
    {
      hide Scan, Keep, Cut, IndexOf, Answers, WhereOf, Harmless, Hits;
      calls := [];
      if !indexing { return Unsupported, calls; }
      var f := if filter.Some? then filter.value else ANY;
      var where := BuildWhere(f);
      AnswerHits(H, records, chain, f, rows);
      ghost var hits := RowHits(records, rows);
      for i := 0 to |rows|
        invariant |calls| == i && calls == hits[..i]
        invariant forall k :: 0 <= k < i ==> cb(calls[k]) == Ok
        invariant lost.Some? ==> i <= lost.value
      {
        if lost == Some(i) { return IoError, calls; }
        var hit := Hit(rows[i], records[rows[i]].segNo, records[rows[i]].idx % TWO32);
        calls := calls + [hit];
        st := cb(hit);
        if st != Ok { return; }
      }
      st := if lost == Some(|rows|) then IoError else Ok;
    }
  }
}
