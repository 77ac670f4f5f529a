/** The record index of the SQLite store (src/store/store_sqlite.c) as a table, and how it relates to a scan
    of the chain. */
module RecordIndex {
  import opened Base
  import opened SegmentFormat
  import opened RecordScan
  import RecordFormat

  const TWO31: nat := 0x8000_0000
  const TWO32: nat := 0x1_0000_0000

  /** timestamp is a signed column. */
  datatype Row = Row(segNo: nat, idx: nat, ns: bytes, schema: bytes, author: Bytes32, timestamp: int, rec: bytes)

  /** The primary key is the record id. */
  type Table = map<Bytes32, Row>

  /** The conversion from uint64 to sqlite3_int64. */
  function Signed(t: u64): int { if t < TWO63 then t else t - TWO64 }

  function RowOf(segNo: nat, idx: nat, rec: bytes, m: RecordFormat.Meta): Row
  { Row(segNo, idx, m.ns, m.schema, m.author, Signed(m.timestamp), rec) }

  // ---------------------------------------------------------------- the order of a scan

  /** ORDER BY segment_no, idx_in_segment. */
  predicate Before(s: nat, i: nat, t: nat, j: nat) { s < t || (s == t && i < j) }

  ghost predicate InOrder(es: seq<Entry>) {
    forall a, b :: 0 <= a < b < |es| ==> Before(es[a].segNo, es[a].idx, es[b].segNo, es[b].idx)
  }

  lemma {:induction false} ScanOrdered(chain: seq<bytes>)
    ensures InOrder(Scan(chain))
    ensures forall e :: e in Scan(chain) ==> 1 <= e.segNo <= |chain|
  {
    hide RecordsIn;
    if chain != [] { ScanOrdered(chain[..|chain| - 1]); }
  }

  /** A segment holds fewer records than bytes. */
  lemma {:induction false} ScanIndexBound(chain: seq<bytes>)
    requires forall i :: 0 <= i < |chain| ==> |chain[i]| < TWO31
    ensures forall e :: e in Scan(chain) ==> e.idx < TWO31
  {
    hide RecordsIn;
    if chain != [] {
      ScanIndexBound(chain[..|chain| - 1]);
      var last := chain[|chain| - 1];
      assert |RecordsIn(last)| <= |last| by { RecordsInBound(last); }
    }
  }

  lemma RecordsInBound(s: bytes)
    ensures |RecordsIn(s)| <= |s|
  {
    hide Decode;
    if Decode(s).Some? { CountBound(s); }
  }

  // ---------------------------------------------------------------- the index and what it answers

  /** The row of a scanned record; a record that does not decode has none. */
  ghost predicate IsRow(row: Row, e: Entry) {
    var r := RecordFormat.Decode(e.rec);
    r.Some? && row == RowOf(e.segNo, e.idx, e.rec, r.value.meta)
  }

  /** One row per scanned record, under its hash, and no other. */
  ghost predicate IndexOf(H: HashFn, table: Table, scan: seq<Entry>) {
    && (forall i :: 0 <= i < |scan| ==> H(scan[i].rec) in table && IsRow(table[H(scan[i].rec)], scan[i]))
    && (forall id :: id in table ==> H(table[id].rec) == id)
    && (forall id :: id in table ==> Entry(table[id].segNo, table[id].idx, table[id].rec) in scan)
  }

  /** The first record of the scan with that id. */
  function Find(H: HashFn, scan: seq<Entry>, id: Bytes32): Option<bytes> {
    if scan == [] then None
    else if H(scan[0].rec) == id then Some(scan[0].rec)
    else Find(H, scan[1..], id)
  }

  lemma {:induction false} FindSpec(H: HashFn, scan: seq<Entry>, id: Bytes32)
    ensures var r := Find(H, scan, id);
            if r.Some? then exists e :: e in scan && e.rec == r.value && H(e.rec) == id
            else forall e :: e in scan ==> H(e.rec) != id
  {
    if scan != [] && H(scan[0].rec) != id {
      FindSpec(H, scan[1..], id);
      assert scan == [scan[0]] + scan[1..];
    }
    if scan != [] && H(scan[0].rec) == id { assert scan[0] in scan; }
  }

  function Lookup(table: Table, id: Bytes32): Option<bytes> { if id in table then Some(table[id].rec) else None }

  /** get_record is a search of the chain, and no other record of the chain has the id. */
  lemma LookupIsSearch(H: HashFn, table: Table, scan: seq<Entry>, id: Bytes32)
    requires IndexOf(H, table, scan)
    ensures Lookup(table, id) == Find(H, scan, id)
    ensures forall e :: e in scan && H(e.rec) == id ==> Lookup(table, id) == Some(e.rec)
  {
    hide RecordFormat.Decode, Find;
    FindSpec(H, scan, id);
    if id in table { assert Entry(table[id].segNo, table[id].idx, table[id].rec) in scan; }
    forall e | e in scan && H(e.rec) == id ensures Lookup(table, id) == Some(e.rec) {
      var i :| 0 <= i < |scan| && scan[i] == e;
      assert IsRow(table[H(scan[i].rec)], scan[i]);
    }
  }

  /** Records of the scan have distinct ids. */
  lemma DistinctIds(H: HashFn, table: Table, scan: seq<Entry>)
    requires IndexOf(H, table, scan) && InOrder(scan)
    ensures forall i, j :: 0 <= i < j < |scan| ==> H(scan[i].rec) != H(scan[j].rec)
  {
    hide RecordFormat.Decode;
    forall i, j | 0 <= i < j < |scan| ensures H(scan[i].rec) != H(scan[j].rec) {
      assert Before(scan[i].segNo, scan[i].idx, scan[j].segNo, scan[j].idx);
    }
  }

  // ---------------------------------------------------------------- adding a segment's records

  lemma IndexGrows(H: HashFn, table: Table, scan: seq<Entry>, e: Entry)
    requires IndexOf(H, table, scan) && H(e.rec) !in table
    requires RecordFormat.Decode(e.rec).Some?
    ensures var row := RowOf(e.segNo, e.idx, e.rec, RecordFormat.Decode(e.rec).value.meta);
            IndexOf(H, table[H(e.rec) := row], scan + [e])
  {
    hide RecordFormat.Decode;
    var longer := scan + [e];
    var wider := table[H(e.rec) := RowOf(e.segNo, e.idx, e.rec, RecordFormat.Decode(e.rec).value.meta)];
    forall id | id in wider ensures Entry(wider[id].segNo, wider[id].idx, wider[id].rec) in longer {
      if id == H(e.rec) { assert longer[|scan|] == e; }
      else { assert Entry(table[id].segNo, table[id].idx, table[id].rec) in scan; }
    }
  }

  /** The ids in an index are those of the chain it was built from. */
  lemma IndexedIds(H: HashFn, table: Table, chain: seq<bytes>)
    requires IndexOf(H, table, Scan(chain))
    ensures table.Keys == ScanIds(H, chain)
  {
    hide IsRow, Scan;
    forall id | id in table ensures id in ScanIds(H, chain) {
      assert Entry(table[id].segNo, table[id].idx, table[id].rec) in Scan(chain);
    }
  }
}
