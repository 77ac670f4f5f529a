/** A store's content as the sequence of its encoded segments (segment number i + 1 at position i), what
    the ledger verifier demands of it, and what the two store backends accept at its end. */
module Chain {
  import opened Base
  import opened SegmentFormat
  import opened RecordScan
  import Merkle
  import RecordFormat

  // ---------------------------------------------------------------- the chain predicate

  function PrevHash(H: HashFn, chain: seq<bytes>, i: nat): Bytes32
    requires i <= |chain|
  { if i == 0 then ZERO32 else H(chain[i - 1]) }

  function TipOf(H: HashFn, chain: seq<bytes>): Option<(nat, Bytes32)>
  { if chain == [] then None else Some((|chain|, H(chain[|chain| - 1]))) }

  predicate RecordsSigned(records: seq<bytes>) {
    forall i :: 0 <= i < |records| ==> var r := RecordFormat.Decode(records[i]); r.Some? && r.value.sig.Some?
  }

  /** What the verifier says about one segment met at number no behind a segment hashing to prev. */
  function LinkStatus(H: HashFn, requireSigned: bool, s: bytes, no: nat, prev: Bytes32): Status {
    var st := VerifyStatus(H, s);
    if st != Ok then st else
    var seg := Decode(s).value;
    if seg.hdr.no != no || seg.hdr.prev != prev then Format
    else if requireSigned && !RecordsSigned(seg.records) then CryptoError
    else Ok
  }

  /** Numbers, links, formats, roots, no segment signature and the signature policy, at every position. */
  ghost predicate ChainOk(H: HashFn, requireSigned: bool, chain: seq<bytes>) {
    forall i :: 0 <= i < |chain| ==> LinkStatus(H, requireSigned, chain[i], i + 1, PrevHash(H, chain, i)) == Ok
  }

  lemma LinkFacts(H: HashFn, requireSigned: bool, s: bytes, no: nat, prev: Bytes32)
    requires LinkStatus(H, requireSigned, s, no, prev) == Ok
    ensures VerifyStatus(H, s) == Ok && Decode(s).Some?
    ensures Decode(s).value.hdr.no == no && Decode(s).value.hdr.prev == prev
    ensures PeekNo(s) == Some(no) && PeekNoPrev(s) == Some((no, prev))
    ensures LinkStatus(H, false, s, no, prev) == Ok
  {
    hide Decode, RecordsDecode, RecordsSigned, PeekNo, PeekNoPrev;
    PeekAgrees(s);
  }

  /** Everything the verifier asks of the segment at position i, in terms of its decoded fields. */
  ghost predicate GoodSegment(H: HashFn, requireSigned: bool, chain: seq<bytes>, i: nat)
    requires i < |chain|
  {
    var d := Decode(chain[i]);
    && d.Some? && d.value.hdr.no == i + 1 && d.value.sig.None?
    && (if i == 0 then forall k :: 0 <= k < 32 ==> d.value.hdr.prev[k] == 0 else d.value.hdr.prev == H(chain[i - 1]))
    && RootFits(H, d.value.hdr.root, d.value.records)
    && forall k :: 0 <= k < |d.value.records| ==>
         var r := RecordFormat.Decode(d.value.records[k]); r.Some? && (requireSigned ==> r.value.sig.Some?)
  }

  lemma LinkExact(H: HashFn, requireSigned: bool, chain: seq<bytes>, i: nat)
    requires i < |chain|
    ensures LinkStatus(H, requireSigned, chain[i], i + 1, PrevHash(H, chain, i)) == Ok <==>
            GoodSegment(H, requireSigned, chain, i)
  {
    VerifyExact(H, chain[i]);
    hide Decode, VerifyStatus, RecordFormat.Decode, RootFits;
    if Decode(chain[i]).Some? { ZeroRoot(Decode(chain[i]).value.hdr.prev); }
  }

  /** The chain predicate, spelled out. */
  lemma ChainExact(H: HashFn, requireSigned: bool, chain: seq<bytes>)
    ensures ChainOk(H, requireSigned, chain) <==>
            forall i :: 0 <= i < |chain| ==> GoodSegment(H, requireSigned, chain, i)
  {
    hide LinkStatus, GoodSegment, PrevHash;
    forall i | 0 <= i < |chain| ensures LinkStatus(H, requireSigned, chain[i], i + 1, PrevHash(H, chain, i)) == Ok <==>
                                        GoodSegment(H, requireSigned, chain, i)
    { LinkExact(H, requireSigned, chain, i); }
  }

  /** The signature policy has its own code, and only for a segment with no other fault. */
  lemma PolicyCode(H: HashFn, s: bytes, no: nat, prev: Bytes32)
    ensures LinkStatus(H, true, s, no, prev) == CryptoError <==>
            LinkStatus(H, false, s, no, prev) == Ok && LinkStatus(H, true, s, no, prev) != Ok
    ensures var st := LinkStatus(H, false, s, no, prev);
            st != Ok ==> LinkStatus(H, true, s, no, prev) == st && (st == Format || st == Unsupported)
  { hide Decode, RecordsSigned, RecordsDecode, Merkle.MerkleRoot; }

  lemma ChainExtend(H: HashFn, requireSigned: bool, chain: seq<bytes>, s: bytes)
    requires ChainOk(H, requireSigned, chain)
    requires LinkStatus(H, requireSigned, s, |chain| + 1, PrevHash(H, chain, |chain|)) == Ok
    ensures ChainOk(H, requireSigned, chain + [s])
  {
    hide LinkStatus, PrevHash;
    var longer := chain + [s];
    forall i | 0 <= i < |longer| ensures LinkStatus(H, requireSigned, longer[i], i + 1, PrevHash(H, longer, i)) == Ok {
      ExtendAt(H, requireSigned, chain, s, i);
    }
  }

  lemma ExtendAt(H: HashFn, requireSigned: bool, chain: seq<bytes>, s: bytes, i: nat)
    requires ChainOk(H, requireSigned, chain) && i <= |chain|
    requires LinkStatus(H, requireSigned, s, |chain| + 1, PrevHash(H, chain, |chain|)) == Ok
    ensures LinkStatus(H, requireSigned, (chain + [s])[i], i + 1, PrevHash(H, chain + [s], i)) == Ok
  {
    hide LinkStatus, ChainOk;
    if i < |chain| { LinkAt(H, requireSigned, chain, i); }
    assert PrevHash(H, chain + [s], i) == PrevHash(H, chain, i);
  }

  lemma LinkAt(H: HashFn, requireSigned: bool, chain: seq<bytes>, i: nat)
    requires ChainOk(H, requireSigned, chain) && i < |chain|
    ensures LinkStatus(H, requireSigned, chain[i], i + 1, PrevHash(H, chain, i)) == Ok
  { hide LinkStatus; }

  lemma ChainPrefix(H: HashFn, requireSigned: bool, chain: seq<bytes>, n: nat)
    requires ChainOk(H, requireSigned, chain) && n <= |chain|
    ensures ChainOk(H, requireSigned, chain[..n])
  {
    hide LinkStatus;
    forall i | 0 <= i < n ensures LinkStatus(H, requireSigned, chain[..n][i], i + 1, PrevHash(H, chain[..n], i)) == Ok {
      assert PrevHash(H, chain[..n], i) == PrevHash(H, chain, i);
    }
  }

  /** A segment that lost its tail, however little of it, is no segment, so the verifier rejects every chain that
      ends in it. */
  lemma LostTailDetected(H: HashFn, requireSigned: bool, chain: seq<bytes>, s: bytes, k: nat)
    requires Decode(s).Some? && k < |s|
    ensures Decode(s[..k]).None? && !ChainOk(H, requireSigned, chain + [s[..k]])
  {
    hide Decode;
    var t := s[..k];
    if Decode(t).Some? { PrefixFree(t, s); }
    var longer := chain + [t];
    assert longer[|chain|] == t;
  }

  // ---------------------------------------------------------------- the tip binds the history

  ghost function Members(chain: seq<bytes>): set<bytes> { set s | s in chain }

  /** A segment found at the end of two verified chains fixes their length and the hash before it. */
  lemma SameLastSegment(H: HashFn, p: bool, q: bool, a: seq<bytes>, b: seq<bytes>)
    requires ChainOk(H, p, a) && ChainOk(H, q, b) && a != [] && b != []
    requires a[|a| - 1] == b[|b| - 1]
    ensures |a| == |b| && PrevHash(H, a, |a| - 1) == PrevHash(H, b, |b| - 1)
  {
    hide LinkStatus, VerifyStatus, Decode, PeekNo, PeekNoPrev;
    LinkFacts(H, p, a[|a| - 1], |a|, PrevHash(H, a, |a| - 1));
    LinkFacts(H, q, b[|b| - 1], |b|, PrevHash(H, b, |b| - 1));
  }

  lemma MembersGrow(H: HashFn, a: seq<bytes>, b: seq<bytes>, n: nat)
    requires n <= |a| && n <= |b| && CollisionBetween(H, Members(a[..n]), Members(b[..n]))
    ensures CollisionBetween(H, Members(a), Members(b))
  { assert Members(a[..n]) <= Members(a) && Members(b[..n]) <= Members(b); }

  /** Two verified chains with the same tip hash have the same tip number and the same bytes at every
      number, or two distinct segments among them have the same hash. */
  lemma {:induction false} TipBindsHistory(H: HashFn, p: bool, q: bool, a: seq<bytes>, b: seq<bytes>)
    requires ChainOk(H, p, a) && ChainOk(H, q, b) && a != [] && b != []
    requires H(a[|a| - 1]) == H(b[|b| - 1])
    ensures a == b || CollisionBetween(H, Members(a), Members(b))
    decreases |a|
  {
    hide ChainOk;
    if a[|a| - 1] != b[|b| - 1] {
      assert a[|a| - 1] in Members(a) && b[|b| - 1] in Members(b);
    } else {
      SameLastSegment(H, p, q, a, b);
      var n := |a| - 1;
      assert a == a[..n] + [a[n]] && b == b[..n] + [b[n]];
      if n > 0 {
        ChainPrefix(H, p, a, n);
        ChainPrefix(H, q, b, n);
        TipBindsHistory(H, p, q, a[..n], b[..n]);
        if a[..n] != b[..n] { MembersGrow(H, a, b, n); }
      }
    }
  }

  // ---------------------------------------------------------------- appending

  /** The log store compares the number only. */
  function LogAppendStatus(chain: seq<bytes>, s: bytes): Status {
    match PeekNo(s)
    case None => Format
    case Some(no) => if no == |chain| + 1 then Ok else InvalidArgument
  }

  /** The SQLite store compares number and previous hash. */
  function SqliteAppendStatus(H: HashFn, chain: seq<bytes>, s: bytes): Status {
    match PeekNoPrev(s)
    case None => Format
    case Some((no, prev)) =>
      if no != |chain| + 1 then InvalidArgument
      else if prev != PrevHash(H, chain, |chain|) then Format
      else Ok
  }

  /** With a record index kept since genesis it also decodes the segment and inserts every record. */
  function IndexedAppendStatus(H: HashFn, chain: seq<bytes>, s: bytes): Status {
    var st := SqliteAppendStatus(H, chain, s);
    if st != Ok then st
    else if Decode(s).None? then Format
    else InsertStatus(H, ScanIds(H, chain), Decode(s).value.records)
  }

  /** A segment with another than the next number is refused by both stores, with the same code. */
  lemma WrongNumber(H: HashFn, chain: seq<bytes>, s: bytes)
    requires Decode(s).Some? && Decode(s).value.hdr.no != |chain| + 1
    ensures LogAppendStatus(chain, s) == SqliteAppendStatus(H, chain, s) == InvalidArgument
  {
    hide Decode, PeekNo, PeekNoPrev;
    PeekAgrees(s);
  }

  datatype Backend = Log | Sqlite | Indexed

  function AppendStatus(H: HashFn, backend: Backend, chain: seq<bytes>, s: bytes): Status {
    match backend
    case Log => LogAppendStatus(chain, s)
    case Sqlite => SqliteAppendStatus(H, chain, s)
    case Indexed => IndexedAppendStatus(H, chain, s)
  }

  /** The chain after offering each segment in turn. */
  function Offer(H: HashFn, backend: Backend, chain: seq<bytes>, offered: seq<bytes>): seq<bytes>
    decreases |offered|
  {
    if offered == [] then chain
    else if AppendStatus(H, backend, chain, offered[0]) == Ok then Offer(H, backend, chain + [offered[0]], offered[1..])
    else Offer(H, backend, chain, offered[1..])
  }

  /** Every one of them is taken. */
  predicate AllTaken(H: HashFn, backend: Backend, chain: seq<bytes>, offered: seq<bytes>)
    decreases |offered|
  {
    offered == [] ||
    (AppendStatus(H, backend, chain, offered[0]) == Ok && AllTaken(H, backend, chain + [offered[0]], offered[1..]))
  }

  lemma SqliteImpliesLog(H: HashFn, chain: seq<bytes>, s: bytes)
    requires SqliteAppendStatus(H, chain, s) == Ok
    ensures LogAppendStatus(chain, s) == Ok
  {
    hide PeekNo, PeekNoPrev;
    PeeksAgree(s);
  }

  /** Any run the SQLite store takes, the log store takes too, ending in the same chain. */
  lemma {:induction false} LogSimulatesSqlite(H: HashFn, chain: seq<bytes>, offered: seq<bytes>)
    requires AllTaken(H, Sqlite, chain, offered)
    ensures AllTaken(H, Log, chain, offered)
    ensures Offer(H, Log, chain, offered) == Offer(H, Sqlite, chain, offered) == chain + offered
    decreases |offered|
  {
    hide SqliteAppendStatus, LogAppendStatus;
    if offered != [] {
      SqliteImpliesLog(H, chain, offered[0]);
      LogSimulatesSqlite(H, chain + [offered[0]], offered[1..]);
      assert chain + offered == (chain + [offered[0]]) + offered[1..];
    }
  }

  /** The converse fails on every chain: the log store takes the next number with any previous hash, the SQLite
      store exactly those that link. */
  lemma LogIgnoresPrev(H: HashFn, chain: seq<bytes>, seg: Segment)
    requires Encodable(seg) && seg.hdr.no == |chain| + 1
    ensures var s := SegmentFormat.Encode(seg);
            && LogAppendStatus(chain, s) == Ok
            && SqliteAppendStatus(H, chain, s) == if seg.hdr.prev == PrevHash(H, chain, |chain|) then Ok else Format
  {
    hide Decode, SegmentFormat.Encode, PeekNo, PeekNoPrev;
    SegmentFormat.RoundTrip(seg);
    PeekAgrees(SegmentFormat.Encode(seg));
  }

  /** So what the log store takes may break the chain, and does so exactly when the previous hash is wrong, for
      every segment that is valid in itself and meets the signature policy. */
  lemma TakenLinksExactly(H: HashFn, requireSigned: bool, chain: seq<bytes>, s: bytes)
    requires ChainOk(H, requireSigned, chain) && LogAppendStatus(chain, s) == Ok && VerifyStatus(H, s) == Ok
    requires Decode(s).Some? && (requireSigned ==> RecordsSigned(Decode(s).value.records))
    ensures ChainOk(H, requireSigned, chain + [s]) <==> Decode(s).value.hdr.prev == PrevHash(H, chain, |chain|)
  {
    hide Decode, VerifyStatus, RecordsSigned, PeekNo, PeekNoPrev, ChainOk;
    PeekAgrees(s);
    var longer := chain + [s];
    assert PrevHash(H, longer, |chain|) == PrevHash(H, chain, |chain|);
    if Decode(s).value.hdr.prev == PrevHash(H, chain, |chain|) {
      ChainExtend(H, requireSigned, chain, s);
    }
    if ChainOk(H, requireSigned, longer) { LinkAt(H, requireSigned, longer, |chain|); }
  }

  /** Such segments exist for every verified chain and wrong hash: an empty one is enough. */
  lemma LogTakesBreaks(H: HashFn, requireSigned: bool, chain: seq<bytes>, prev: Bytes32, timestamp: u64)
    returns (s: bytes)
    requires ChainOk(H, requireSigned, chain) && |chain| + 1 < TWO64 && prev != PrevHash(H, chain, |chain|)
    ensures LogAppendStatus(chain, s) == Ok && VerifyStatus(H, s) == Ok && !ChainOk(H, requireSigned, chain + [s])
  {
    hide Decode, SegmentFormat.Encode, PeekNo, PeekNoPrev, ChainOk;
    var seg := Segment(Header(|chain| + 1, prev, 0, ZERO32, timestamp), [], None);
    s := SegmentFormat.Encode(seg);
    SegmentFormat.RoundTrip(seg);
    LogIgnoresPrev(H, chain, seg);
    TakenLinksExactly(H, requireSigned, chain, s);
  }

  /** A segment that links to the end of the chain is taken by both backends without an index. */
  lemma LinkedIsTaken(H: HashFn, requireSigned: bool, chain: seq<bytes>, s: bytes)
    requires LinkStatus(H, requireSigned, s, |chain| + 1, PrevHash(H, chain, |chain|)) == Ok
    ensures LogAppendStatus(chain, s) == SqliteAppendStatus(H, chain, s) == Ok
  {
    hide LinkStatus, PeekNo, PeekNoPrev;
    LinkFacts(H, requireSigned, s, |chain| + 1, PrevHash(H, chain, |chain|));
  }
}
