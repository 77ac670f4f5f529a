/** The records of a chain in order, and what a primary key on their ids makes of adding more. */
module RecordScan {
  import opened Base
  import opened SegmentFormat
  import RecordFormat

  /** A record met by a scan, with its place. */
  datatype Entry = Entry(segNo: nat, idx: nat, rec: bytes)

  function SegmentEntries(segNo: nat, records: seq<bytes>): (es: seq<Entry>)
    ensures |es| == |records| && forall i :: 0 <= i < |es| ==> es[i] == Entry(segNo, i, records[i])
  { seq(|records|, i requires 0 <= i < |records| => Entry(segNo, i, records[i])) }

  function RecordsIn(s: bytes): seq<bytes> { if Decode(s).Some? then Decode(s).value.records else [] }

  /** Every record of every segment, in order. */
  function Scan(chain: seq<bytes>): seq<Entry> {
    if chain == [] then []
    else Scan(chain[..|chain| - 1]) + SegmentEntries(|chain|, RecordsIn(chain[|chain| - 1]))
  }

  /** The ids of everything scanned. */
  function ScanIds(H: HashFn, chain: seq<bytes>): set<Bytes32> { set e | e in Scan(chain) :: H(e.rec) }


  lemma ScanGrows(chain: seq<bytes>, s: bytes)
    requires Decode(s).Some?
    ensures Scan(chain + [s]) == Scan(chain) + SegmentEntries(|chain| + 1, Decode(s).value.records)
  {
    hide Decode, SegmentEntries;
    var longer := chain + [s];
    assert longer[..|chain|] == chain && longer[|chain|] == s;
  }

  /** How inserting the records in order ends, given the ids already there: an undecodable record is a format
      error, an id that is already there violates the primary key. */
  function InsertStatus(H: HashFn, ids: set<Bytes32>, records: seq<bytes>): Status
    decreases |records|
  {
    if records == [] then Ok
    else if RecordFormat.Decode(records[0]).None? then Format
    else if H(records[0]) in ids then IoError
    else InsertStatus(H, ids + {H(records[0])}, records[1..])
  }

  /** Nothing fails exactly when every record decodes and all ids, old and new, are distinct. */
  ghost predicate Insertable(H: HashFn, ids: set<Bytes32>, records: seq<bytes>) {
    (forall i :: 0 <= i < |records| ==> RecordFormat.Decode(records[i]).Some?) && NewIds(H, ids, records)
  }

  ghost predicate NewIds(H: HashFn, ids: set<Bytes32>, records: seq<bytes>) {
    && (forall i :: 0 <= i < |records| ==> H(records[i]) !in ids)
    && (forall i, j :: 0 <= i < j < |records| ==> H(records[i]) != H(records[j]))
  }

  /** Records that all decode can only meet a repeated id, distinct new ids only a record that does not decode. */
  lemma {:induction false} InsertCodes(H: HashFn, ids: set<Bytes32>, records: seq<bytes>)
    ensures var st := InsertStatus(H, ids, records);
            && (st == Ok || st == Format || st == IoError)
            && ((forall r :: r in records ==> RecordFormat.Decode(r).Some?) ==> st != Format)
            && (NewIds(H, ids, records) ==> st != IoError)
    decreases |records|
  {
    hide RecordFormat.Decode;
    if records != [] {
      var rest := records[1..];
      InsertCodes(H, ids + {H(records[0])}, rest);
      assert records == [records[0]] + rest;
      assert forall i :: 0 <= i < |rest| ==> rest[i] == records[i + 1];
    }
  }

  lemma {:induction false} InsertStatusExact(H: HashFn, ids: set<Bytes32>, records: seq<bytes>)
    ensures InsertStatus(H, ids, records) == Ok <==> Insertable(H, ids, records)
    decreases |records|
  {
    hide RecordFormat.Decode;
    if records != [] {
      var rest := records[1..];
      var more := ids + {H(records[0])};
      InsertStatusExact(H, more, rest);
      assert forall i :: 0 <= i < |rest| ==> rest[i] == records[i + 1];
      assert forall i :: 1 <= i < |records| ==> records[i] == rest[i - 1];
      if Insertable(H, ids, records) {
        assert H(records[0]) !in ids;
        assert Insertable(H, more, rest);
      }
    }
  }
}
