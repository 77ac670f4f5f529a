/** One node's objects at work: a replication engine and a ledger handle on the same log store
    (src/p2p/sync.c, src/ledger/ledger.c, src/store/store_log.c) go through exactly the states of
    ChainSafety.Run, and the verifier accepts the store at the end. */
module NodeObjects {
  import opened Base
  import opened Chain
  import opened LogStore
  import opened Ledger
  import opened LedgerHandle
  import opened Sync
  import opened ChainSafety
  import Verifier
  import Wire

  /** Bytes that the appends among the events may take in a segment. */
  function Weight(events: seq<Event>): nat {
    if events == [] then 0 else OwnWeight(events[0]) + Weight(events[1..])
  }

  function OwnWeight(e: Event): nat { if e.Write? && e.op.Append? then |e.op.record| + 10 else 0 }

  function BufferWeight(buf: seq<bytes>): nat { TotalBytes(buf) + 10 * |buf| + 200 }

  /** Faults that the objects can meet. */
  predicate RealFault(fault: Status) { fault == Ok || fault == OutOfMemory || fault == IoError }

  predicate RealFaults(events: seq<Event>) {
    forall i :: 0 <= i < |events| && events[i].Write? ==> RealFault(events[i].op.fault)
  }

  function IoOf(fault: Status): Io { if fault == IoError then RenameFails else Succeeds }

  ghost function WorldOf(engine: Engine, handle: Handle): World
    reads engine, handle, engine.store, handle.store
  { World(engine.Abstract(), handle.Abstract()) }

  lemma TotalPush(buf: seq<bytes>, record: bytes)
    ensures TotalBytes(buf + [record]) == TotalBytes(buf) + |record|
  { assert (buf + [record])[..|buf|] == buf; }

  lemma NextWeight(H: HashFn, o: Options, w: World, e: Event)
    requires |w.ledger.chain| < TWO64
    ensures BufferWeight(Next(H, o, w, e).ledger.buf) <= BufferWeight(w.ledger.buf) + OwnWeight(e)
  {
    hide Deliver, AppendStatus, FlushedSegment, Admission, Full, Wire.Decode;
    if e.Write? && e.op.Append? { TotalPush(w.ledger.buf, e.op.record); }
  }

  /** One event through the objects. */
  method Work(engine: Engine, handle: Handle, e: Event)
    requires engine.store == handle.store && engine.Valid() && handle.Valid() && Room(handle.Abstract(), 2)
    requires ChainSafety.Inv(engine.store.H, handle.o, WorldOf(engine, handle))
    requires BufferWeight(Raws(handle.buf)) + OwnWeight(e) <= TWO63 && (e.Write? ==> RealFault(e.op.fault))
    modifies engine, handle, handle.store
    ensures engine.Valid() && handle.Valid()
    ensures WorldOf(engine, handle) == Next(engine.store.H, handle.o, old(WorldOf(engine, handle)), e)
  {
    hide Deliver, Ledger.Flush, Ledger.AppendRecord, ChainOk, LogStore.Holds, Admission, SendTip,
         TotalBytes, Wire.Decode;
    assert e.Write? ==> SizedOps([e.op]);
    NextKeeps(engine.store.H, handle.o, WorldOf(engine, handle), e);
    match e {
      case Receive(msg, env) => var _, _ := engine.OnMessage(msg, env);
      case ReceiveFrame(frame, env) =>
        var msg := Wire.DecodeFrame(frame);
        if msg.Some? { var _, _ := engine.OnMessage(msg.value, env); }
      case Announce(canSend) => var _, _ := engine.AnnounceTip(canSend);
      case Write(op) =>
        match op {
          case FlushNow(ts, fault) => var _ := handle.Flush(ts, fault != OutOfMemory, IoOf(fault));
          case Append(record, ts, memory, fault) =>
            TotalPush(Raws(handle.buf), record);
            var _, _ := handle.AppendRecord(record, ts, memory, true, fault != OutOfMemory, IoOf(fault));
        }
    }
  }

  /** Any list of events, then the verifier: the objects follow ChainSafety.Run and the verdict is OK. */
  method Drive(engine: Engine, handle: Handle, events: seq<Event>) returns (verdict: Status)
    requires engine.store == handle.store && engine.Valid() && handle.Valid()
    requires ChainSafety.Inv(engine.store.H, handle.o, WorldOf(engine, handle))
    requires Room(handle.Abstract(), |events| + 2) && RealFaults(events)
    requires BufferWeight(Raws(handle.buf)) + Weight(events) <= TWO63
    modifies engine, handle, handle.store
    ensures engine.Valid() && handle.Valid()
    ensures WorldOf(engine, handle) == ChainSafety.Run(engine.store.H, handle.o, old(WorldOf(engine, handle)), events)
    ensures verdict == Ok && old(engine.store.chain) <= engine.store.chain
  {
    hide ChainSafety.Inv, Next, LogStore.Holds, ChainOk, TotalBytes;
    ghost var H, o, start := engine.store.H, handle.o, WorldOf(engine, handle);
    ghost var all := ChainSafety.Run(H, o, start, events);
    SizedByWeight(events);
    ChainSafeOverRuns(H, o, start, events);
    var i := 0;
    assert events[0..] == events;
    while i < |events|
      invariant 0 <= i <= |events| && engine.Valid() && handle.Valid()
      invariant ChainSafety.Inv(H, o, WorldOf(engine, handle)) && Room(handle.Abstract(), |events| - i + 2)
      invariant BufferWeight(Raws(handle.buf)) + Weight(events[i..]) <= TWO63
      invariant ChainSafety.Run(H, o, WorldOf(engine, handle), events[i..]) == all
    {
      assert events[i..][0] == events[i] && events[i..][1..] == events[i + 1..];
      ghost var w := WorldOf(engine, handle);
      NextWeight(H, o, w, events[i]);
      assert events[i].Write? ==> SizedOps([events[i].op]);
      NextKeeps(H, o, w, events[i]);
      Work(engine, handle, events[i]);
      i := i + 1;
    }
    assert all.ledger.chain == engine.store.chain && all == WorldOf(engine, handle);
    InvChain(H, o, all);
    verdict := Verifier.VerifyLog(engine.store, false);
  }

  /** From the directory of a verified log store: open it, put an engine and a ledger on it, and work. */
  method Session(H: HashFn, files: Dir, options: Options, maxPerRequest: u64,
                 events: seq<Event>, ghost chain: seq<bytes>)
    returns (verdict: Status, store: Store)
    requires LogStore.Holds(files, chain) && ChainOk(H, false, chain)
    requires |chain| + |events| + 2 < TWO63 && RealFaults(events) && 200 + Weight(events) <= TWO63
    ensures verdict == Ok && store.Valid() && chain <= store.chain
    ensures var w := World(Fresh(H, chain, maxPerRequest), Ledger.State([], chain));
            store.chain == ChainSafety.Run(H, Opened(options), w, events).ledger.chain
  {
    hide LogStore.Holds, ChainOk;
    var st;
    st, store := OpenLog(H, files);
    var engine := new Engine(store, maxPerRequest);
    var handle := new Handle(store, options);
    assert ChainSafety.Inv(H, handle.o, WorldOf(engine, handle));
    verdict := Drive(engine, handle, events);
  }

  lemma InvChain(H: HashFn, o: Options, w: World)
    requires ChainSafety.Inv(H, o, w)
    ensures ChainOk(H, false, w.ledger.chain)
  { }

  lemma {:induction false} SizedByWeight(events: seq<Event>)
    requires Weight(events) <= TWO63
    ensures SizedEvents(events)
    decreases |events|
  {
    if events != [] {
      SizedByWeight(events[1..]);
      forall i | 0 <= i < |events| && events[i].Write? ensures SizedOps([events[i].op]) {
        if i > 0 { assert events[i] == events[1..][i - 1]; }
      }
    }
  }
}
