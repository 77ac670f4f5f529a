/** The replication engine of one node (src/p2p/sync.c): cached tips, the request policy, applying and
    serving segments. First as functions on values, then as the object that the code updates. */
module Sync {
  import opened Base
  import opened Chain
  import opened LogStore
  import opened Wire
  import SegmentFormat

  /** local is the cached tip of the own store, refreshed only at some calls. */
  datatype Node = Node(local: Option<(nat, Bytes32)>, peerHas: bool, peerNo: u64, peerHash: Bytes32,
                       nextWanted: u64, maxInflight: u64, awaiting: bool)

  /** How many sends and reads of one call succeed before one fails, and how a write goes. */
  datatype Env = Env(sends: nat, fetches: nat, io: Io)

  datatype Outcome = Outcome(st: Status, node: Node, chain: seq<bytes>, sent: seq<Msg>)

  const DEFAULT_BATCH: u64 := 128

  function NextNo(local: Option<(nat, Bytes32)>): u64
  { if local.Some? then (local.value.0 + 1) % TWO64 else 1 }

  /** Ask for more unless there is nothing to get or a request is believed to be under way. */
  function RequestMore(n: Node, chain: seq<bytes>, canSend: bool): Outcome {
    if !n.peerHas then Outcome(Ok, n, chain, [])
    else if (n.local.Some? && n.local.value.0 >= n.peerNo) || (n.local.None? && n.peerNo == 0) then
      Outcome(Ok, n.(awaiting := false), chain, [])
    else if n.awaiting then Outcome(Ok, n, chain, [])
    else
      var want := NextNo(n.local);
      if canSend then Outcome(Ok, n.(nextWanted := want, awaiting := true), chain, [GetSegments(want, n.maxInflight)])
      else Outcome(IoError, n.(nextWanted := want), chain, [])
  }

  /** Every check before the store is asked. */
  function ApplyCheck(H: HashFn, n: Node, no: u64, hash: Bytes32, data: bytes): Status {
    if H(data) != hash then Format else
    var st := SegmentFormat.VerifyStatus(H, data);
    if st != Ok then st else
    var hdr := SegmentFormat.Decode(data).value.hdr;
    if hdr.no != no then Format
    else if no != NextNo(n.local) then InvalidArgument
    else if hdr.prev != (if n.local.Some? then n.local.value.1 else ZERO32) then Format
    else Ok
  }

  function Apply(H: HashFn, n: Node, chain: seq<bytes>, no: u64, hash: Bytes32, data: bytes, writeOk: bool): Outcome {
    var st := ApplyCheck(H, n, no, hash, data);
    if st != Ok then Outcome(st, n, chain, [])
    else if LogAppendStatus(chain, data) != Ok then Outcome(LogAppendStatus(chain, data), n, chain, [])
    else if !writeOk then Outcome(IoError, n, chain, [])
    else
      var chain' := chain + [data];
      Outcome(Ok, n.(local := TipOf(H, chain'),
              awaiting := n.awaiting && !(n.peerHas && |chain'| >= n.peerNo)), chain', [])
  }

  function SegmentMsg(H: HashFn, chain: seq<bytes>, no: u64): Msg
    requires 1 <= no <= |chain|
  { SegmentData(no, H(chain[no - 1]), chain[no - 1]) }

  /** k consecutive segments, from number from on. */
  function Served(H: HashFn, chain: seq<bytes>, from: nat, k: nat): (ms: seq<Msg>)
    requires 1 <= from && from + k <= |chain| + 1 && |chain| < TWO64
    ensures |ms| == k && forall i :: 0 <= i < k ==> ms[i] == SegmentMsg(H, chain, from + i)
  { seq(k, i requires 0 <= i < k => SegmentMsg(H, chain, from + i)) }

  function Serve(H: HashFn, n: Node, chain: seq<bytes>, from: u64, max: u64, env: Env): Outcome
    requires |chain| < TWO64
  {
    var first := if from == 0 then 1 else from;
    var limit := if max == 0 then DEFAULT_BATCH else max;
    var refreshed := n.(local := TipOf(H, chain));
    if first > |chain| then Outcome(Ok, refreshed, chain, [])
    else
      var count := Min(|chain| - first + 1, limit);
      var done := Min(count, Min(env.fetches, env.sends));
      Outcome(if done == count then Ok else IoError, refreshed, chain, Served(H, chain, first, done))
  }

  function Deliver(H: HashFn, n: Node, chain: seq<bytes>, m: Msg, env: Env): Outcome
    requires |chain| < TWO64
  {
    match m
    case Hello(_, _, _) => Outcome(Ok, n, chain, [])
    case Tip(no, hash) =>
      RequestMore(n.(peerNo := no, peerHash := hash, peerHas := no != 0 || hash != ZERO32), chain, env.sends > 0)
    case GetSegments(from, max) => Serve(H, n, chain, from, max, env)
    case SegmentData(no, hash, data) =>
      var r := Apply(H, n, chain, no, hash, data, env.io == Succeeds);
      if r.st != Ok then r else RequestMore(r.node, r.chain, env.sends > 0)
    case Error(_, _) => Outcome(IoError, n, chain, [])
  }

  function TipMsg(H: HashFn, chain: seq<bytes>): Msg
    requires |chain| < TWO64
  { if chain == [] then Tip(0, ZERO32) else Tip(|chain|, H(chain[|chain| - 1])) }

  function SendTip(H: HashFn, n: Node, chain: seq<bytes>, canSend: bool): Outcome
    requires |chain| < TWO64
  {
    Outcome(if canSend then Ok else IoError, n.(local := TipOf(H, chain)), chain,
            if canSend then [TipMsg(H, chain)] else [])
  }

  function HelloMsg(id: Bytes32): Msg { Hello(1, 0, id) }

  function SendHello(n: Node, chain: seq<bytes>, id: Bytes32, canSend: bool): Outcome
  { Outcome(if canSend then Ok else IoError, n, chain, if canSend then [HelloMsg(id)] else []) }

  function Fresh(H: HashFn, chain: seq<bytes>, maxInflight: u64): Node {
    Node(TipOf(H, chain), false, 0, ZERO32, 0, if maxInflight == 0 then DEFAULT_BATCH else maxInflight, false)
  }

  // ---------------------------------------------------------------- what the steps amount to

  /** A tip whose request could not be sent is not forgotten: the node does not believe that it is waiting, and the
      same tip, heard again, makes it ask. */
  lemma RetryAfterFailedSend(H: HashFn, n: Node, chain: seq<bytes>, m: Msg, fails: Env, works: Env)
    requires |chain| < TWO64 && n.local == TipOf(H, chain) && !n.awaiting && m.Tip? && m.no > |chain|
    requires fails.sends == 0 && works.sends > 0
    ensures var r := Deliver(H, n, chain, m, fails); var again := Deliver(H, r.node, chain, m, works);
            && r.st == IoError && r.sent == [] && r.chain == chain && !r.node.awaiting && r.node.local == n.local
            && again.st == Ok && again.sent == [GetSegments(|chain| + 1, n.maxInflight)]
            && again.node.awaiting && again.node.nextWanted == |chain| + 1
  { }

  /** Everything a tip does, to any node: it is remembered, even a lower one, and asked about exactly when it is above
      the cached number and nothing is believed to be under way. */
  lemma TipExact(H: HashFn, n: Node, chain: seq<bytes>, no: u64, hash: Bytes32, env: Env)
    requires |chain| < TWO64
    ensures var r := Deliver(H, n, chain, Tip(no, hash), env);
            var known := if n.local.Some? then n.local.value.0 else 0;
            && r.chain == chain && r.node.local == n.local && r.node.peerNo == no && r.node.peerHash == hash
            && r.sent == (if no > known && !n.awaiting && env.sends > 0
                          then [GetSegments(known + 1, n.maxInflight)] else [])
            && r.st == (if no > known && !n.awaiting && env.sends == 0 then IoError else Ok)
            && r.node.awaiting == if no > known then n.awaiting || env.sends > 0
                                  else n.awaiting && no == 0 && hash == ZERO32
  { }

  /** Everything a segment does after it has been applied: the flag is cleared on reaching the peer's tip, and below
      it a node that was not waiting asks for the one after. */
  lemma SegmentExact(H: HashFn, n: Node, chain: seq<bytes>, no: u64, hash: Bytes32, data: bytes, env: Env)
    requires |chain| + 1 < TWO64
    ensures var a := Apply(H, n, chain, no, hash, data, env.io == Succeeds);
            var r := Deliver(H, n, chain, SegmentData(no, hash, data), env);
            var behind := n.peerHas && n.peerNo > |chain| + 1;
            if a.st != Ok then r == a else
              && r.chain == chain + [data] && r.node.local == Some((|chain| + 1, H(data)))
              && r.sent == (if behind && !n.awaiting && env.sends > 0
                            then [GetSegments(|chain| + 2, n.maxInflight)] else [])
              && r.st == (if behind && !n.awaiting && env.sends == 0 then IoError else Ok)
              && r.node.awaiting == if behind then n.awaiting || env.sends > 0 else n.awaiting && !n.peerHas
  { hide ApplyCheck, LogAppendStatus; }

  /** Exactly which received segments are applied: hashing to what was declared, linking to the cached tip, and with
      the next number of both cache and store. Anything else changes nothing. */
  lemma ApplyExact(H: HashFn, n: Node, chain: seq<bytes>, no: u64, hash: Bytes32, data: bytes, writeOk: bool)
    requires n.local.Some? ==> n.local.value.0 + 1 < TWO64
    ensures var r := Apply(H, n, chain, no, hash, data, writeOk);
            var (known, prev) := if n.local.Some? then n.local.value else (0, ZERO32);
            && (r.st == Ok <==> writeOk && H(data) == hash && no == known + 1 == |chain| + 1
                                && LinkStatus(H, false, data, no, prev) == Ok)
            && (r.st == Ok ==> r.chain == chain + [data] && r.node.local == Some((|chain| + 1, H(data))))
            && (r.st == Ok ==> (r.node.awaiting <==> n.awaiting && (n.peerHas ==> |chain| + 1 < n.peerNo)))
            && (r.st != Ok ==> r.chain == chain && r.node == n)
            && r.sent == []
            && (H(data) != hash ==> r.st == Format)
            && (H(data) == hash && LinkStatus(H, false, data, no, prev) == Ok && no != known + 1 ==>
                  r.st == InvalidArgument)
  {
    hide SegmentFormat.Decode, SegmentFormat.VerifyStatus, SegmentFormat.PeekNo,
         SegmentFormat.PeekNoPrev, RecordsSigned;
    if SegmentFormat.VerifyStatus(H, data) == Ok {
      DecodesWhenVerified(H, data);
      SegmentFormat.PeekAgrees(data);
    }
  }

  /** A request is answered with consecutive segments from the first one asked for, number 1 when that is 0, up to
      the tip or the number asked for, 128 when that is 0, as far as reads and sends succeed. */
  lemma ServeExact(H: HashFn, n: Node, chain: seq<bytes>, from: u64, max: u64, env: Env)
    requires |chain| < TWO64
    ensures var r := Deliver(H, n, chain, GetSegments(from, max), env);
            var first, limit := if from == 0 then 1 else from as int, if max == 0 then 128 else max as int;
            var all := if first > |chain| then 0 else Min(|chain| - first + 1, limit);
            && r.chain == chain && r.node == n.(local := TipOf(H, chain))
            && |r.sent| == Min(all, Min(env.sends, env.fetches))
            && (forall i :: 0 <= i < |r.sent| ==>
                  r.sent[i] == SegmentData(first + i, H(chain[first + i - 1]), chain[first + i - 1]))
            && r.st == if |r.sent| == all then Ok else IoError
  { }

  /** The announced tip is the tip of the chain; an error from the peer is reported and changes nothing. */
  lemma TipMsgIsTip(H: HashFn, chain: seq<bytes>)
    requires |chain| < TWO64
    ensures var m := TipMsg(H, chain);
            m.Tip? && m.no == |chain| && m.hash == if chain == [] then ZERO32 else H(chain[|chain| - 1])
  { }

  lemma ErrorChangesNothing(H: HashFn, n: Node, chain: seq<bytes>, code: u64, text: bytes, env: Env)
    requires |chain| < TWO64
    ensures Deliver(H, n, chain, Error(code, text), env) == Outcome(IoError, n, chain, [])
  { }

  // ---------------------------------------------------------------- the code

  class Engine {
    const store: Store
    const maxInflight: u64
    var localHas: bool
    var localNo: u64
    var localHash: Bytes32
    var peerHas: bool
    var peerNo: u64
    var peerHash: Bytes32
    var nextWanted: u64
    var awaiting: bool

    ghost function Abstract(): Node
      reads this
    {
      Node(if localHas then var no: nat := localNo; Some((no, localHash)) else None,
           peerHas, peerNo, peerHash, nextWanted, maxInflight, awaiting)
    }

    ghost predicate Valid()
      reads this, store
    { store.Valid() && |store.chain| + 1 < TWO64 }

    constructor (store: Store, maxPerRequest: u64)
      requires store.Valid() && |store.chain| + 1 < TWO64
      ensures this.store == store && Valid() && Abstract() == Fresh(store.H, store.chain, maxPerRequest)
    {
      this.store := store;
      this.maxInflight := if maxPerRequest == 0 then DEFAULT_BATCH else maxPerRequest;
      localHas, localNo, localHash := store.hasTip, store.tipNo, store.tipHash;
      peerHas, peerNo, peerHash, nextWanted, awaiting := false, 0, ZERO32, 0, false;
    }

    method RefreshLocalTip()
      requires Valid()
      modifies this`localHas, this`localNo, this`localHash
      ensures Abstract() == old(Abstract()).(local := TipOf(store.H, store.chain))
    {
      localHas, localNo, localHash := false, 0, ZERO32;
      if store.hasTip { localHas, localNo, localHash := true, store.tipNo, store.tipHash; }
    }

    method RequestMoreIfNeeded(canSend: bool) returns (st: Status, sent: seq<Msg>)
      requires Valid()
      modifies this`nextWanted, this`awaiting
      ensures Outcome(st, Abstract(), store.chain, sent) == RequestMore(old(Abstract()), store.chain, canSend)
    {
      if !peerHas { return Ok, []; }
      if localHas && localNo >= peerNo { awaiting := false; return Ok, []; }
      if !localHas && peerNo == 0 { awaiting := false; return Ok, []; }
      var want := if localHas then localNo + 1 else 1;
      if awaiting { return Ok, []; }
      nextWanted := want;
      if !canSend { return IoError, []; }
      awaiting := true;
      return Ok, [GetSegments(want, maxInflight)];
    }

    /** Hash, verification, number and link to the cached tip, in this order. */
    method CheckSegment(no: u64, hash: Bytes32, data: bytes) returns (st: Status)
      ensures st == ApplyCheck(store.H, Abstract(), no, hash, data)
    {
      hide SegmentFormat.Decode, SegmentFormat.VerifyStatus;
      if store.H(data) != hash { return Format; }
      st := SegmentFormat.VerifySegment(store.H, data);
      if st != Ok { return; }
      DecodesWhenVerified(store.H, data);
      var seg := SegmentFormat.DecodeSegment(data);
      if seg.value.hdr.no != no { return Format; }
      var expected := if localHas then (localNo + 1) % TWO64 else 1;
      if no != expected { return InvalidArgument; }
      if localHas {
        if seg.value.hdr.prev != localHash { return Format; }
      } else {
        if seg.value.hdr.prev != ZERO32 { return Format; }
      }
    }

    method ApplySegment(no: u64, hash: Bytes32, data: bytes, io: Io) returns (st: Status)
      requires Valid()
      modifies this`localHas, this`localNo, this`localHash, this`awaiting, store
      ensures store.Valid()
      ensures Outcome(st, Abstract(), store.chain, []) ==
              Apply(store.H, old(Abstract()), old(store.chain), no, hash, data, io == Succeeds)
    {
      hide ApplyCheck, Holds, LogAppendStatus, Passed;
      st := CheckSegment(no, hash, data);
      if st != Ok { return; }
      var storedNo, storedHash;
      ghost var trail;
      st, storedNo, storedHash, trail := store.Append(data, io, None);
      if st != Ok { return; }
      localHas, localNo, localHash := true, storedNo, storedHash;
      if peerHas && localNo >= peerNo { awaiting := false; }
    }

    /** The serving loop, stopping at the first failed read or send. */
    method ServeSegments(first: u64, limit: u64, env: Env) returns (st: Status, sent: seq<Msg>)
      requires Valid() && localHas && localNo == |store.chain| && 1 <= first <= localNo
      ensures var count := Min(|store.chain| - first + 1, limit); var done := Min(count, Min(env.fetches, env.sends));
              st == (if done == count then Ok else IoError) && sent == Served(store.H, store.chain, first, done)
    {
      hide Holds, SegFilename;
      sent := [];
      var no: nat := first;
      while no <= localNo && |sent| < limit
        invariant no == first + |sent| <= localNo + 1 && |sent| <= limit
        invariant |sent| <= env.fetches && |sent| <= env.sends
        invariant sent == Served(store.H, store.chain, first, |sent|)
        decreases localNo + 1 - no
      {
        var s;
        st, s := store.ReadSegment(no, |sent| < env.fetches);
        if st != Ok { return; }
        var hash := store.H(s);
        if |sent| == env.sends { return IoError, sent; }
        sent := sent + [SegmentData(no, hash, s)];
        no := no + 1;
      }
      st := Ok;
    }

    method OnMessage(m: Msg, env: Env) returns (st: Status, sent: seq<Msg>)
      requires Valid() && |store.chain| + 2 < TWO64
      modifies this, store
      ensures Valid()
      ensures Outcome(st, Abstract(), store.chain, sent) == Deliver(store.H, old(Abstract()), old(store.chain), m, env)
    {
      hide Apply, Holds, RequestMore;
      match m {
        case Hello(_, _, _) => return Ok, [];
        case Tip(no, hash) =>
          peerNo, peerHash, peerHas := no, hash, no != 0 || hash != ZERO32;
          st, sent := RequestMoreIfNeeded(env.sends > 0);
        case GetSegments(from, max) =>
          RefreshLocalTip();
          var first := if from == 0 then 1 else from;
          var limit := if max == 0 then DEFAULT_BATCH else max;
          if !localHas || first > localNo { return Ok, []; }
          st, sent := ServeSegments(first, limit, env);
        case SegmentData(no, hash, data) =>
          ApplyGrowth(store.H, Abstract(), store.chain, no, hash, data, env.io == Succeeds);
          st := ApplySegment(no, hash, data, env.io);
          sent := [];
          if st == Ok { st, sent := RequestMoreIfNeeded(env.sends > 0); }
        case Error(_, _) => return IoError, [];
      }
    }

    method Greet(id: Bytes32, canSend: bool) returns (st: Status, sent: seq<Msg>)
      ensures Outcome(st, Abstract(), store.chain, sent) == SendHello(Abstract(), store.chain, id, canSend)
    {
      if !canSend { return IoError, []; }
      return Ok, [Hello(1, 0, id)];
    }

    method AnnounceTip(canSend: bool) returns (st: Status, sent: seq<Msg>)
      requires Valid()
      modifies this`localHas, this`localNo, this`localHash
      ensures Outcome(st, Abstract(), store.chain, sent) == SendTip(store.H, old(Abstract()), store.chain, canSend)
    {
      RefreshLocalTip();
      if !canSend { return IoError, []; }
      return Ok, [if localHas then Tip(localNo, localHash) else Tip(0, ZERO32)];
    }
  }

  lemma DecodesWhenVerified(H: HashFn, s: bytes)
    requires SegmentFormat.VerifyStatus(H, s) == Ok
    ensures SegmentFormat.Decode(s).Some?
  { hide SegmentFormat.Decode; }

  lemma ApplyGrowth(H: HashFn, n: Node, chain: seq<bytes>, no: u64, hash: Bytes32, data: bytes, writeOk: bool)
    ensures |Apply(H, n, chain, no, hash, data, writeOk).chain| <= |chain| + 1
    ensures Apply(H, n, chain, no, hash, data, writeOk).sent == []
  { hide ApplyCheck, LogAppendStatus; }
}
