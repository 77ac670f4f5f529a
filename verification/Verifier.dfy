/** The ledger verifier's walk over the stored segments (src/ledger/ledger.c), through whatever store it is
    given, and its verdict on the two stores. */
module Verifier {
  import opened Base
  import opened Chain
  import LogStore
  import SqliteStore
  import RecordIndex
  import RecordFormat
  import SegmentFormat

  /** How a store answers a request for a segment. */
  type Reader = u64 -> (Status, bytes)

  /** From segment no to the tip; prev is the hash of the segment before, tipHash what the store says. */
  function Walk(H: HashFn, requireSigned: bool, read: Reader, no: nat, tip: nat,
                prev: Bytes32, tipHash: Bytes32): Status
    requires no <= tip + 1 && tip + 1 < TWO64
    decreases tip + 1 - no
  {
    if no > tip then Ok else
    var (st, s) := read(no);
    if st != Ok then st else
    var link := LinkStatus(H, requireSigned, s, no, prev);
    if link != Ok then link
    else if no == tip && H(s) != tipHash then Format
    else Walk(H, requireSigned, read, no + 1, tip, H(s), tipHash)
  }

  /** A store without a tip is empty and passes. */
  function Verdict(H: HashFn, requireSigned: bool, tip: Option<(nat, Bytes32)>, read: Reader): Status
    requires tip.Some? ==> tip.value.0 + 1 < TWO64
  { if tip.None? then Ok else Walk(H, requireSigned, read, 1, tip.value.0, ZERO32, tip.value.1) }

  /** Every read succeeds with the segment of the chain. */
  ghost predicate Serves(read: Reader, chain: seq<bytes>) {
    forall k: u64 :: 1 <= k <= |chain| ==> read(k) == (Ok, chain[k - 1])
  }

  lemma {:induction false} WalkFrom(H: HashFn, requireSigned: bool, read: Reader, chain: seq<bytes>,
                                  i: nat, tipHash: Bytes32)
    requires i <= |chain| && |chain| + 1 < TWO64 && Serves(read, chain)
    ensures Walk(H, requireSigned, read, i + 1, |chain|, PrevHash(H, chain, i), tipHash) == Ok <==>
            && (forall k :: i <= k < |chain| ==>
                  LinkStatus(H, requireSigned, chain[k], k + 1, PrevHash(H, chain, k)) == Ok)
            && (i < |chain| ==> H(chain[|chain| - 1]) == tipHash)
    decreases |chain| - i
  {
    hide LinkStatus;
    if i < |chain| { WalkFrom(H, requireSigned, read, chain, i + 1, tipHash); }
  }

  /** When every read succeeds, the walk ends in OK exactly on chains that satisfy the full predicate and
      whose last hash is the store's tip hash. */
  lemma WalkExact(H: HashFn, requireSigned: bool, read: Reader, chain: seq<bytes>, tipHash: Bytes32)
    requires |chain| + 1 < TWO64 && Serves(read, chain)
    ensures Walk(H, requireSigned, read, 1, |chain|, ZERO32, tipHash) == Ok <==>
            ChainOk(H, requireSigned, chain) && (chain != [] ==> H(chain[|chain| - 1]) == tipHash)
  {
    hide LinkStatus, Walk;
    WalkFrom(H, requireSigned, read, chain, 0, tipHash);
  }

  /** With the chain's own tip the verdict is the chain predicate. */
  lemma VerdictExact(H: HashFn, requireSigned: bool, read: Reader, chain: seq<bytes>)
    requires |chain| + 1 < TWO64 && Serves(read, chain)
    ensures Verdict(H, requireSigned, TipOf(H, chain), read) == Ok <==> ChainOk(H, requireSigned, chain)
  {
    hide LinkStatus, Walk;
    if chain != [] { WalkExact(H, requireSigned, read, chain, H(chain[|chain| - 1])); }
  }

  // ---------------------------------------------------------------- the code

  method CheckLink(H: HashFn, requireSigned: bool, s: bytes, no: nat, prev: Bytes32) returns (st: Status)
    ensures st == LinkStatus(H, requireSigned, s, no, prev)
  {
    hide SegmentFormat.Decode, RecordFormat.Decode, SegmentFormat.RecordsDecode;
    st := SegmentFormat.VerifySegment(H, s);
    if st != Ok { return; }
    var seg := SegmentFormat.DecodeSegment(s);
    if seg.value.hdr.no != no { return Format; }
    if seg.value.hdr.prev != prev { return Format; }
    if requireSigned {
      var records := seg.value.records;
      for i := 0 to |records|
        invariant forall k :: 0 <= k < i ==>
                    RecordFormat.Decode(records[k]).Some? && RecordFormat.Decode(records[k]).value.sig.Some?
      {
        var r := RecordFormat.DecodeRecord(records[i]);
        if r.None? || r.value.sig.None? { return CryptoError; }
      }
    }
    st := Ok;
  }

  /** The loop, over any store: whatever its reads return. */
  method Verify(H: HashFn, requireSigned: bool, tip: Option<(nat, Bytes32)>, read: Reader) returns (st: Status)
    requires tip.Some? ==> tip.value.0 + 1 < TWO64
    ensures st == Verdict(H, requireSigned, tip, read)
  {
    hide LinkStatus;
    if tip.None? { return Ok; }
    var (tipNo, tipHash) := tip.value;
    var prev, no: nat := ZERO32, 1;
    ghost var all := Walk(H, requireSigned, read, 1, tipNo, ZERO32, tipHash);
    while no <= tipNo
      invariant 1 <= no <= tipNo + 1
      invariant Walk(H, requireSigned, read, no, tipNo, prev, tipHash) == all
    {
      var (got, s) := read(no);
      if got != Ok { return got; }
      var hash := H(s);
      st := CheckLink(H, requireSigned, s, no, prev);
      if st != Ok { return; }
      prev := hash;
      if no == tipNo && hash != tipHash { return Format; }
      no := no + 1;
    }
    st := Ok;
  }

  // ---------------------------------------------------------------- the two stores

  function LogReader(files: LogStore.Dir): Reader {
    (no: u64) => var name := LogStore.SegFilename(no); if name in files then (Ok, files[name]) else (IoError, [])
  }

  function SqliteReader(segments: map<u64, SqliteStore.SegmentRow>): Reader {
    (no: u64) => if no in segments then (Ok, segments[no].data) else (NotFound, [])
  }

  /** On a valid log store, or one in any condition. */
  method VerifyLog(store: LogStore.Store, requireSigned: bool) returns (st: Status)
    requires store.hasTip ==> store.tipNo + 1 < TWO64
    ensures st == Verdict(store.H, requireSigned, store.Tip(), LogReader(store.files))
    ensures store.Valid() ==> (st == Ok <==> ChainOk(store.H, requireSigned, store.chain))
  {
    hide LinkStatus, LogStore.Holds, Walk;
    st := Verify(store.H, requireSigned, store.Tip(), LogReader(store.files));
    if store.Valid() {
      LogServes(store);
      VerdictExact(store.H, requireSigned, LogReader(store.files), store.chain);
    }
  }

  lemma LogServes(store: LogStore.Store)
    requires store.Valid() && |store.chain| < TWO64
    ensures Serves(LogReader(store.files), store.chain)
  {
    hide LogStore.Holds, LogStore.SegFilename;
    forall k: u64 | 1 <= k <= |store.chain| ensures LogReader(store.files)(k) == (Ok, store.chain[k - 1]) {
      LogStore.HeldFiles(store.files, store.chain, k);
    }
  }

  method VerifySqlite(store: SqliteStore.Store, requireSigned: bool) returns (st: Status)
    requires store.hasTip ==> store.tipNo + 1 < TWO64
    ensures st == Verdict(store.H, requireSigned, store.Tip(), SqliteReader(store.segments))
    ensures store.Valid() ==> (st == Ok <==> ChainOk(store.H, requireSigned, store.chain))
  {
    hide LinkStatus, RecordIndex.IndexOf, Walk;
    st := Verify(store.H, requireSigned, store.Tip(), SqliteReader(store.segments));
    if store.Valid() {
      VerdictExact(store.H, requireSigned, SqliteReader(store.segments), store.chain);
    }
  }
}
