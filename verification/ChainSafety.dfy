/** Safety of one node's store over whole runs: any interleaving of received messages, whatever they
    contain and whatever calls fail, tip announcements, and appends and flushes of a ledger on the same
    store (src/p2p/sync.c, src/ledger/ledger.c, src/store/store_log.c). */
module ChainSafety {
  import opened Base
  import opened Chain
  import opened LogStore
  import opened Wire
  import opened Sync
  import Ledger
  import SegmentFormat

  datatype World = World(node: Node, ledger: Ledger.State)

  datatype Event =
    | Receive(msg: Msg, env: Env)
    | ReceiveFrame(frame: bytes, env: Env)
    | Announce(canSend: bool)
    | Write(op: Ledger.Op)

  function Next(H: HashFn, o: Ledger.Options, w: World, e: Event): World
    requires |w.ledger.chain| < TWO64
  {
    match e
    case Receive(msg, env) =>
      var r := Deliver(H, w.node, w.ledger.chain, msg, env);
      World(r.node, w.ledger.(chain := r.chain))
    case ReceiveFrame(frame, env) =>
      var msg := Wire.Decode(frame);
      if msg.None? then w else
      var r := Deliver(H, w.node, w.ledger.chain, msg.value, env);
      World(r.node, w.ledger.(chain := r.chain))
    case Announce(canSend) => w.(node := SendTip(H, w.node, w.ledger.chain, canSend).node)
    case Write(op) => w.(ledger := Ledger.Step(H, Log, o, w.ledger, op).1)
  }

  /** The cached tip is the number and hash of some segment of the store, not always the last. */
  predicate CachedPast(H: HashFn, local: Option<(nat, Bytes32)>, chain: seq<bytes>) {
    local.Some? ==> 1 <= local.value.0 <= |chain| && local.value.1 == H(chain[local.value.0 - 1])
  }

  ghost predicate Inv(H: HashFn, o: Ledger.Options, w: World) {
    && ChainOk(H, false, w.ledger.chain)
    && Ledger.BufferOk(o, w.ledger.buf)
    && CachedPast(H, w.node.local, w.ledger.chain)
  }

  predicate SizedEvents(events: seq<Event>) {
    forall i :: 0 <= i < |events| && events[i].Write? ==> Ledger.SizedOps([events[i].op])
  }

  /** What gets past all checks and the store's number test links to the end of the chain: with a stale
      cached tip the two tests cannot both be met. */
  lemma AppliedSegmentLinks(H: HashFn, n: Node, chain: seq<bytes>, no: u64, hash: Bytes32, data: bytes)
    requires CachedPast(H, n.local, chain) && |chain| + 1 < TWO64
    requires ApplyCheck(H, n, no, hash, data) == Ok && LogAppendStatus(chain, data) == Ok
    ensures LinkStatus(H, false, data, |chain| + 1, PrevHash(H, chain, |chain|)) == Ok
  {
    hide SegmentFormat.Decode, SegmentFormat.VerifyStatus, SegmentFormat.PeekNo,
         SegmentFormat.PeekNoPrev, RecordsSigned;
    DecodesWhenVerified(H, data);
    SegmentFormat.PeekAgrees(data);
  }

  lemma CachedStaysPast(H: HashFn, local: Option<(nat, Bytes32)>, chain: seq<bytes>, more: seq<bytes>)
    requires CachedPast(H, local, chain)
    ensures CachedPast(H, local, chain + more) && CachedPast(H, TipOf(H, chain), chain)
  { }

  lemma RequestKeepsLocal(n: Node, chain: seq<bytes>, canSend: bool)
    ensures RequestMore(n, chain, canSend).node.local == n.local && RequestMore(n, chain, canSend).chain == chain
  { }

  lemma ApplySafe(H: HashFn, n: Node, chain: seq<bytes>, no: u64, hash: Bytes32, data: bytes, writeOk: bool)
    requires ChainOk(H, false, chain) && CachedPast(H, n.local, chain) && |chain| + 1 < TWO64
    ensures var r := Apply(H, n, chain, no, hash, data, writeOk);
            ChainOk(H, false, r.chain) && CachedPast(H, r.node.local, r.chain)
            && chain <= r.chain && |r.chain| <= |chain| + 1
  {
    hide ApplyCheck, LogAppendStatus, LinkStatus, ChainOk;
    if ApplyCheck(H, n, no, hash, data) == Ok && LogAppendStatus(chain, data) == Ok && writeOk {
      AppliedSegmentLinks(H, n, chain, no, hash, data);
      ChainExtend(H, false, chain, data);
    }
  }

  lemma ReceiveSafe(H: HashFn, n: Node, chain: seq<bytes>, m: Msg, env: Env)
    requires ChainOk(H, false, chain) && CachedPast(H, n.local, chain) && |chain| + 1 < TWO64
    ensures var r := Deliver(H, n, chain, m, env);
            ChainOk(H, false, r.chain) && CachedPast(H, r.node.local, r.chain)
            && chain <= r.chain && |r.chain| <= |chain| + 1
  {
    hide RequestMore, Apply, ChainOk;
    match m
    case Hello(_, _, _) =>
    case Error(_, _) =>
    case GetSegments(_, _) =>
    case Tip(tipNo, tipHash) =>
      RequestKeepsLocal(
        n.(peerNo := tipNo, peerHash := tipHash, peerHas := tipNo != 0 || tipHash != ZERO32), chain, env.sends > 0);
    case SegmentData(no, hash, data) =>
      ApplySafe(H, n, chain, no, hash, data, env.io == Succeeds);
      var r := Apply(H, n, chain, no, hash, data, env.io == Succeeds);
      RequestKeepsLocal(r.node, r.chain, env.sends > 0);
  }

  /** A ledger flush also keeps the chain valid without the signature policy, and only extends it. */
  lemma FlushSafe(H: HashFn, o: Ledger.Options, s: Ledger.State, ts: u64, fault: Status)
    requires ChainOk(H, false, s.chain) && Ledger.BufferOk(o, s.buf) && Ledger.Room(s, 0)
    ensures var s' := Ledger.Flush(H, Log, o, s, ts, fault).1;
            ChainOk(H, false, s'.chain) && Ledger.BufferOk(o, s'.buf) && s.chain <= s'.chain
            && |s'.chain| + |s'.buf| <= |s.chain| + |s.buf|
  {
    hide SegmentFormat.Encode, SegmentFormat.Decode, LinkStatus, ChainOk, Ledger.Admission, Ledger.FlushedSegment,
         SegmentFormat.PeekNo, SegmentFormat.PeekNoPrev;
    var e := SegmentFormat.Encode(Ledger.FlushedSegment(H, o, s, ts));
    if !Ledger.TooMany(o, s.buf) {
      Ledger.FlushLinks(H, o, s, ts);
      LinkFacts(H, o.requireSigned, e, |s.chain| + 1, PrevHash(H, s.chain, |s.chain|));
      ChainExtend(H, false, s.chain, e);
    }
  }

  lemma WriteSafe(H: HashFn, o: Ledger.Options, s: Ledger.State, op: Ledger.Op)
    requires ChainOk(H, false, s.chain) && Ledger.BufferOk(o, s.buf) && Ledger.Room(s, 1) && Ledger.SizedOps([op])
    ensures var s' := Ledger.Step(H, Log, o, s, op).1;
            ChainOk(H, false, s'.chain) && Ledger.BufferOk(o, s'.buf) && s.chain <= s'.chain
            && |s'.chain| + |s'.buf| <= |s.chain| + |s.buf| + 1
  {
    hide ChainOk, Ledger.Flush, Ledger.Admission, Ledger.Full;
    match op
    case FlushNow(ts, fault) => FlushSafe(H, o, s, ts, fault);
    case Append(record, ts, _, fault) =>
      assert [op][0] == op;
      if Ledger.Admission(o, record) == Ok { FlushSafe(H, o, s.(buf := s.buf + [record]), ts, fault); }
  }

  lemma NextKeeps(H: HashFn, o: Ledger.Options, w: World, e: Event)
    requires Inv(H, o, w) && Ledger.Room(w.ledger, 1) && (e.Write? ==> Ledger.SizedOps([e.op]))
    ensures var w' := Next(H, o, w, e);
            Inv(H, o, w') && w.ledger.chain <= w'.ledger.chain
            && |w'.ledger.chain| + |w'.ledger.buf| <= |w.ledger.chain| + |w.ledger.buf| + 1
  {
    hide Deliver, Ledger.Step, ChainOk, Ledger.BufferOk, Wire.Decode;
    match e
    case Receive(msg, env) => ReceiveSafe(H, w.node, w.ledger.chain, msg, env);
    case ReceiveFrame(frame, env) =>
      if Wire.Decode(frame).Some? { ReceiveSafe(H, w.node, w.ledger.chain, Wire.Decode(frame).value, env); }
    case Announce(_) =>
    case Write(op) =>
      WriteSafe(H, o, w.ledger, op);
      var c' := Ledger.Step(H, Log, o, w.ledger, op).1.chain;
      assert c' == w.ledger.chain + c'[|w.ledger.chain|..];
      CachedStaysPast(H, w.node.local, w.ledger.chain, c'[|w.ledger.chain|..]);
  }

  /** Runs a whole list of events within the range of 64-bit numbers. */
  function Run(H: HashFn, o: Ledger.Options, w: World, events: seq<Event>): (w': World)
    decreases |events|
  {
    if events == [] || |w.ledger.chain| >= TWO64 then w
    else Run(H, o, Next(H, o, w, events[0]), events[1..])
  }

  /** Whatever arrives and whatever fails, every run only appends to the store and leaves it accepted by the
      ledger verifier. */
  lemma {:induction false} ChainSafeOverRuns(H: HashFn, o: Ledger.Options, w: World, events: seq<Event>)
    requires Inv(H, o, w) && Ledger.Room(w.ledger, |events|) && SizedEvents(events)
    ensures Inv(H, o, Run(H, o, w, events)) && w.ledger.chain <= Run(H, o, w, events).ledger.chain
    decreases |events|
  {
    hide Inv, Next;
    if events != [] {
      NextKeeps(H, o, w, events[0]);
      assert SizedEvents(events[1..]);
      ChainSafeOverRuns(H, o, Next(H, o, w, events[0]), events[1..]);
    }
  }

  /** From any verified store with a new engine and an empty ledger buffer. */
  lemma SafeFromVerifiedStore(H: HashFn, o: Ledger.Options, chain: seq<bytes>, maxInflight: u64, events: seq<Event>)
    requires ChainOk(H, false, chain) && |chain| + |events| < TWO63 && SizedEvents(events)
    ensures var after := Run(H, o, World(Fresh(H, chain, maxInflight), Ledger.State([], chain)), events).ledger.chain;
            ChainOk(H, false, after) && chain <= after
  {
    hide ChainOk, Run, SizedEvents, Ledger.Admission;
    var w := World(Fresh(H, chain, maxInflight), Ledger.State([], chain));
    assert Inv(H, o, w);
    ChainSafeOverRuns(H, o, w, events);
  }
}
