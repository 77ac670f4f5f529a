/** The pair of module Replication with encoded frames in its queues, as the code has them (src/p2p/sync.c sends
    through src/p2p/wire.c): it goes through the same states. */
module FramedPair {
  import opened Base
  import opened Chain
  import opened Sync
  import opened Replication
  import Wire

  datatype FrameSys = FrameSys(lead: Peer, fol: Peer, toFol: seq<bytes>, toLead: seq<bytes>, log: seq<bytes>)

  function Frames(ms: seq<Wire.Msg>): (fs: seq<bytes>)
    ensures |fs| == |ms| && forall i :: 0 <= i < |ms| ==> fs[i] == Wire.Encode(ms[i])
  { seq(|ms|, i requires 0 <= i < |ms| => Wire.Encode(ms[i])) }

  function Wrap(s: Sys): FrameSys { FrameSys(s.lead, s.fol, Frames(s.toFol), Frames(s.toLead), Frames(s.log)) }

  /** What on_message comes to for a received frame; one that does not decode changes nothing. */
  function DeliverFrame(H: HashFn, p: Peer, frame: bytes): Outcome
    requires |p.chain| < TWO64
  {
    match Wire.Decode(frame)
    case None => Outcome(Format, p.node, p.chain, [])
    case Some(m) => Deliver(H, p.node, p.chain, m, Reliable(p.chain))
  }

  function FrameStep(H: HashFn, s: FrameSys, act: Act): (Status, FrameSys)
    requires |s.lead.chain| < TWO64 && |s.fol.chain| < TWO64
  {
    match act
    case Grow(seg) =>
      if LinkStatus(H, false, seg, |s.lead.chain| + 1, PrevHash(H, s.lead.chain, |s.lead.chain|)) == Ok
      then (Ok, s.(lead := s.lead.(chain := s.lead.chain + [seg]))) else (Ok, s)
    case Announce => LeaderSends(s, SendTip(H, s.lead.node, s.lead.chain, true), s.toLead)
    case FollowerAnnounce => FollowerSends(s, SendTip(H, s.fol.node, s.fol.chain, true), s.toFol)
    case Greet(id) => LeaderSends(s, SendHello(s.lead.node, s.lead.chain, id, true), s.toLead)
    case FollowerGreet(id) => FollowerSends(s, SendHello(s.fol.node, s.fol.chain, id, true), s.toFol)
    case ToFollower =>
      if s.toFol == [] then (Ok, s) else FollowerSends(s, DeliverFrame(H, s.fol, s.toFol[0]), s.toFol[1..])
    case ToLeader =>
      if s.toLead == [] then (Ok, s) else LeaderSends(s, DeliverFrame(H, s.lead, s.toLead[0]), s.toLead[1..])
  }

  function LeaderSends(s: FrameSys, r: Outcome, toLead: seq<bytes>): (Status, FrameSys)
  { (r.st, FrameSys(Peer(r.node, r.chain), s.fol, s.toFol + Frames(r.sent), toLead, s.log + Frames(r.sent))) }

  function FollowerSends(s: FrameSys, r: Outcome, toFol: seq<bytes>): (Status, FrameSys)
  { (r.st, FrameSys(s.lead, Peer(r.node, r.chain), toFol, s.toLead + Frames(r.sent), s.log + Frames(r.sent))) }

  function FrameRun(H: HashFn, s: FrameSys, acts: seq<Act>): (bool, FrameSys)
    decreases |acts|
  {
    if acts == [] || |s.lead.chain| >= TWO64 || |s.fol.chain| >= TWO64 then (true, s) else
    var (st, s') := FrameStep(H, s, acts[0]);
    var (ok, s'') := FrameRun(H, s', acts[1..]);
    (st == Ok && ok, s'')
  }

  // ---------------------------------------------------------------- sizes

  /** Byte strings that a frame can carry. */
  predicate Small(m: Wire.Msg) {
    && (m.SegmentData? ==> |m.data| < TWO63)
    && (m.Error? ==> |m.text| < TWO63)
  }

  predicate AllSmall(ms: seq<Wire.Msg>) { forall i :: 0 <= i < |ms| ==> Small(ms[i]) }

  predicate SmallChain(chain: seq<bytes>) { forall i :: 0 <= i < |chain| ==> |chain[i]| < TWO63 }

  predicate SmallSys(s: Sys) {
    AllSmall(s.toFol) && AllSmall(s.toLead) && SmallChain(s.lead.chain) && SmallChain(s.fol.chain)
  }

  predicate SmallAct(act: Act) { act.Grow? ==> |act.segment| < TWO63 }

  lemma SmallFits(m: Wire.Msg)
    requires Small(m)
    ensures Wire.Encodable(m)
  { Wire.PayloadSize(m); }

  lemma Travels(m: Wire.Msg)
    requires Small(m)
    ensures Wire.Decode(Wire.Encode(m)) == Some(m)
  {
    hide Wire.Decode, Wire.Encode, Wire.Encodable;
    SmallFits(m);
    Wire.RoundTrip(m);
  }

  /** A delivery keeps chain and messages small. */
  lemma DeliverSmall(H: HashFn, n: Node, chain: seq<bytes>, m: Wire.Msg, env: Env)
    requires |chain| < TWO64 && SmallChain(chain) && Small(m)
    ensures var r := Deliver(H, n, chain, m, env); SmallChain(r.chain) && AllSmall(r.sent)
  { hide ApplyCheck, LogAppendStatus; }

  lemma StepSmall(H: HashFn, s: Sys, act: Act)
    requires |s.lead.chain| < TWO64 && |s.fol.chain| < TWO64 && SmallSys(s) && SmallAct(act)
    ensures SmallSys(Step(H, s, act).1)
  {
    hide Deliver, LinkStatus;
    if act.ToFollower? && s.toFol != [] {
      DeliverSmall(H, s.fol.node, s.fol.chain, s.toFol[0], Reliable(s.fol.chain));
    }
    if act.ToLeader? && s.toLead != [] {
      DeliverSmall(H, s.lead.node, s.lead.chain, s.toLead[0], Reliable(s.lead.chain));
    }
  }

  // ---------------------------------------------------------------- the same states

  lemma FramesAppend(a: seq<Wire.Msg>, b: seq<Wire.Msg>)
    ensures Frames(a + b) == Frames(a) + Frames(b)
  { hide Wire.Encode; }

  lemma FramesTail(a: seq<Wire.Msg>)
    requires a != []
    ensures Frames(a[1..]) == Frames(a)[1..] && Frames(a) != []
  { hide Wire.Encode; }

  lemma SameStep(H: HashFn, s: Sys, act: Act)
    requires |s.lead.chain| < TWO64 && |s.fol.chain| < TWO64 && SmallSys(s)
    ensures var (st, s') := Step(H, s, act); FrameStep(H, Wrap(s), act) == (st, Wrap(s'))
  {
    hide Deliver, Frames, Wire.Decode, LinkStatus, SendTip, SendHello;
    assert Frames([]) == [];
    match act
    case Grow(_) =>
    case Announce => LeaderSame(s, SendTip(H, s.lead.node, s.lead.chain, true));
    case Greet(id) => LeaderSame(s, SendHello(s.lead.node, s.lead.chain, id, true));
    case FollowerAnnounce => FollowerSame(s, SendTip(H, s.fol.node, s.fol.chain, true));
    case FollowerGreet(id) => FollowerSame(s, SendHello(s.fol.node, s.fol.chain, id, true));
    case ToFollower =>
      if s.toFol != [] {
        FramesTail(s.toFol);
        Travels(s.toFol[0]);
        FollowerSame(s, Deliver(H, s.fol.node, s.fol.chain, s.toFol[0], Reliable(s.fol.chain)));
      }
    case ToLeader =>
      if s.toLead != [] {
        FramesTail(s.toLead);
        Travels(s.toLead[0]);
        LeaderSame(s, Deliver(H, s.lead.node, s.lead.chain, s.toLead[0], Reliable(s.lead.chain)));
      }
  }

  lemma LeaderSame(s: Sys, r: Outcome)
    ensures Frames(s.toFol + r.sent) == Frames(s.toFol) + Frames(r.sent)
    ensures Frames(s.log + r.sent) == Frames(s.log) + Frames(r.sent)
  {
    FramesAppend(s.toFol, r.sent);
    FramesAppend(s.log, r.sent);
  }

  lemma FollowerSame(s: Sys, r: Outcome)
    ensures Frames(s.toLead + r.sent) == Frames(s.toLead) + Frames(r.sent)
    ensures Frames(s.log + r.sent) == Frames(s.log) + Frames(r.sent)
  {
    FramesAppend(s.toLead, r.sent);
    FramesAppend(s.log, r.sent);
  }

  /** The run on frames is the run on messages, so all that is proved of the latter holds of the former. */
  lemma {:induction false} SameRun(H: HashFn, s: Sys, acts: seq<Act>)
    requires SmallSys(s) && forall i :: 0 <= i < |acts| ==> SmallAct(acts[i])
    ensures var (ok, s') := Run(H, s, acts); FrameRun(H, Wrap(s), acts) == (ok, Wrap(s'))
    decreases |acts|
  {
    hide Step, FrameStep, SmallSys, Frames;
    if acts != [] && |s.lead.chain| < TWO64 && |s.fol.chain| < TWO64 {
      SameStep(H, s, acts[0]);
      StepSmall(H, s, acts[0]);
      SameRun(H, Step(H, s, acts[0]).1, acts[1..]);
    }
  }

  /** In particular no frame of an honest pair is ever rejected, and the follower's store stays a prefix. */
  lemma HonestFrames(H: HashFn, s: Sys, max: u64, leadMax: u64, acts: seq<Act>)
    requires ChainOk(H, false, s.lead.chain) && Start(H, s, max, leadMax) && |s.lead.chain| + |acts| + 1 < TWO64
    requires SmallSys(s) && forall i :: 0 <= i < |acts| ==> SmallAct(acts[i])
    ensures var (ok, s') := FrameRun(H, Wrap(s), acts); ok && s'.fol.chain <= s'.lead.chain
  {
    hide Run, FrameRun, ChainOk, Start, SmallSys;
    HonestPair(H, s, max, leadMax, acts);
    SameRun(H, s, acts);
  }
}
