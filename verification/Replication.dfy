/** A leader and a follower joined by two message queues (src/p2p/sync.c, driven as in
    examples/ex_p2p_loopback.c): what holds in every reachable state, and where a run ends. */
module Replication {
  import opened Base
  import opened Chain
  import opened LogStore
  import opened Wire
  import opened Sync
  import SegmentFormat
  import Ledger

  datatype Peer = Peer(node: Node, chain: seq<bytes>)

  /** The queues hold messages on their way; log lists everything sent so far. */
  datatype Sys = Sys(lead: Peer, fol: Peer, toFol: seq<Msg>, toLead: seq<Msg>, log: seq<Msg>)

  /** No send, read or write fails in a call on this chain. */
  function Reliable(chain: seq<bytes>): Env { Env(|chain| + 1, |chain|, Succeeds) }

  /** The leader's store grows by a linked segment, either side says hello or announces its tip, or the
      head of a queue is delivered. */
  datatype Act =
    | Grow(segment: bytes)
    | Announce
    | FollowerAnnounce
    | Greet(id: Bytes32)
    | FollowerGreet(id: Bytes32)
    | ToFollower
    | ToLeader

  function Step(H: HashFn, s: Sys, act: Act): (Status, Sys)
    requires |s.lead.chain| < TWO64 && |s.fol.chain| < TWO64
  {
    match act
    case Grow(seg) =>
      if LinkStatus(H, false, seg, |s.lead.chain| + 1, PrevHash(H, s.lead.chain, |s.lead.chain|)) == Ok
      then (Ok, s.(lead := s.lead.(chain := s.lead.chain + [seg]))) else (Ok, s)
    case Announce => FromLeaderSide(s, SendTip(H, s.lead.node, s.lead.chain, true), s.toLead)
    case FollowerAnnounce => FromFollowerSide(s, SendTip(H, s.fol.node, s.fol.chain, true), s.toFol)
    case Greet(id) => FromLeaderSide(s, SendHello(s.lead.node, s.lead.chain, id, true), s.toLead)
    case FollowerGreet(id) => FromFollowerSide(s, SendHello(s.fol.node, s.fol.chain, id, true), s.toFol)
    case ToFollower =>
      if s.toFol == [] then (Ok, s) else
      FromFollowerSide(s, Deliver(H, s.fol.node, s.fol.chain, s.toFol[0], Reliable(s.fol.chain)), s.toFol[1..])
    case ToLeader =>
      if s.toLead == [] then (Ok, s) else
      FromLeaderSide(s, Deliver(H, s.lead.node, s.lead.chain, s.toLead[0], Reliable(s.lead.chain)), s.toLead[1..])
  }

  /** A call on one side came out as r and left its own queue as given; what it sent joins the other's. */
  function FromLeaderSide(s: Sys, r: Outcome, toLead: seq<Msg>): (Status, Sys)
  { (r.st, Sys(Peer(r.node, r.chain), s.fol, s.toFol + r.sent, toLead, s.log + r.sent)) }

  function FromFollowerSide(s: Sys, r: Outcome, toFol: seq<Msg>): (Status, Sys)
  { (r.st, Sys(s.lead, Peer(r.node, r.chain), toFol, s.toLead + r.sent, s.log + r.sent)) }

  // ---------------------------------------------------------------- invariant with a growing leader

  /** A true tip of the leader, now or earlier. */
  predicate TrueTip(m: Msg, leader: seq<bytes>) {
    m.Tip? && m.no <= |leader| && (m.no == 0 ==> m.hash == ZERO32)
  }

  /** Positions a..b of the follower's queue are segments, in order from its next number on; around them
      are greetings, and tips in nondecreasing order. */
  ghost predicate QueueShape(H: HashFn, leader: seq<bytes>, have: nat, peerNo: nat, queue: seq<Msg>, a: nat, b: nat) {
    && a <= b <= |queue| && have + (b - a) <= |leader| < TWO64
    && (forall i :: a <= i < b ==> queue[i] == SegmentMsg(H, leader, have + 1 + (i - a)))
    && (forall i :: 0 <= i < |queue| && !(a <= i < b) ==>
          queue[i].Hello? || (TrueTip(queue[i], leader) && peerNo <= queue[i].no))
    && (forall i, j :: 0 <= i < j < |queue| && queue[i].Tip? && queue[j].Tip? ==> queue[i].no <= queue[j].no)
  }

  /** What the follower believes about the leader and about its own request. */
  ghost predicate FollowerState(H: HashFn, n: Node, chain: seq<bytes>, leader: seq<bytes>) {
    && chain <= leader && n.local == TipOf(H, chain) && n.maxInflight > 0
    && n.peerNo <= |leader| && n.peerHas == (n.peerNo != 0)
    && (n.awaiting ==> |chain| < n.peerNo)
  }

  predicate Asks(m: Msg, from: nat, max: u64) { m.GetSegments? && m.from == from && m.max == max }

  predicate HasRequest(queue: seq<Msg>) { exists i :: 0 <= i < |queue| && queue[i].GetSegments? }

  /** The number of the cached tip, 0 when there is none. */
  function CachedNo(n: Node): nat { if n.local.Some? then n.local.value.0 else 0 }

  /** A tip that a node with this cached number has no use for. */
  predicate OldTip(m: Msg, known: nat) { m.Tip? && m.no <= known && (m.no == 0 ==> m.hash == ZERO32) }

  /** The leader's queue: greetings, old tips, and at most one request, for the follower's next number. */
  ghost predicate LeadQueue(queue: seq<Msg>, have: nat, max: u64, known: nat) {
    && (forall i :: 0 <= i < |queue| ==> queue[i].Hello? || OldTip(queue[i], known) || Asks(queue[i], have + 1, max))
    && (forall i, j :: 0 <= i < j < |queue| ==> !(queue[i].GetSegments? && queue[j].GetSegments?))
  }

  ghost predicate Inv(H: HashFn, s: Sys, a: nat, b: nat) {
    && ChainOk(H, false, s.lead.chain)
    && FollowerState(H, s.fol.node, s.fol.chain, s.lead.chain)
    && QueueShape(H, s.lead.chain, |s.fol.chain|, s.fol.node.peerNo, s.toFol, a, b)
    // the leader's cached tip may be stale, but it covers all that the follower has or is being sent
    && |s.fol.chain| + (b - a) <= CachedNo(s.lead.node) <= |s.lead.chain|
    && LeadQueue(s.toLead, |s.fol.chain|, s.fol.node.maxInflight, CachedNo(s.lead.node))
    && (HasRequest(s.toLead) ==> s.fol.node.awaiting && a == b)
    // segments queued although nothing is awaited: the announced tip was reached, nothing precedes them
    && (a < b && !s.fol.node.awaiting ==> a == 0 && s.fol.node.peerNo <= |s.fol.chain|)
  }

  ghost predicate Honest(H: HashFn, s: Sys) { exists a, b :: Inv(H, s, a, b) }

  /** A segment of the leader's chain at the follower's next number passes every check. */
  lemma NextSegmentApplies(H: HashFn, n: Node, chain: seq<bytes>, leader: seq<bytes>)
    requires ChainOk(H, false, leader) && chain <= leader && |chain| < |leader| < TWO64 && n.local == TipOf(H, chain)
    ensures var data := leader[|chain|];
            && ApplyCheck(H, n, |chain| + 1, H(data), data) == Ok
            && LogAppendStatus(chain, data) == Ok
            && chain + [data] <= leader
  {
    var k := |chain|;
    hide ChainOk, LinkStatus, SegmentFormat.VerifyStatus, SegmentFormat.Decode, SegmentFormat.PeekNo,
         SegmentFormat.PeekNoPrev;
    LinkAt(H, false, leader, k);
    LinkFacts(H, false, leader[k], k + 1, PrevHash(H, leader, k));
  }

  lemma SegmentDelivered(H: HashFn, n: Node, chain: seq<bytes>, leader: seq<bytes>)
    requires ChainOk(H, false, leader) && FollowerState(H, n, chain, leader) && |chain| < |leader| < TWO64
    requires n.awaiting || n.peerNo <= |chain|
    ensures var r := Deliver(H, n, chain, SegmentMsg(H, leader, |chain| + 1), Reliable(chain));
            && r.st == Ok && r.sent == [] && r.chain == chain + [leader[|chain|]]
            && FollowerState(H, r.node, r.chain, leader)
            && r.node == n.(local := TipOf(H, r.chain), awaiting := |chain| + 1 < n.peerNo)
  {
    hide ApplyCheck, LogAppendStatus, ChainOk;
    NextSegmentApplies(H, n, chain, leader);
  }

  lemma TipDelivered(H: HashFn, n: Node, chain: seq<bytes>, leader: seq<bytes>, m: Msg)
    requires FollowerState(H, n, chain, leader) && TrueTip(m, leader) && n.peerNo <= m.no && |leader| < TWO64
    ensures var r := Deliver(H, n, chain, m, Reliable(chain));
            && r.st == Ok && r.chain == chain && FollowerState(H, r.node, chain, leader)
            && r.node.peerNo == m.no && r.node.maxInflight == n.maxInflight
            && r.sent == (if |chain| < m.no && !n.awaiting then [GetSegments(|chain| + 1, n.maxInflight)] else [])
            && r.node.awaiting == (|chain| < m.no)
  { }

  /** A node that hears a tip it has no use for, or a greeting, sends nothing. */
  lemma OldTipDelivered(H: HashFn, n: Node, chain: seq<bytes>, m: Msg, env: Env)
    requires |chain| < TWO64 && (m.Hello? || OldTip(m, CachedNo(n)))
    ensures var r := Deliver(H, n, chain, m, env);
            r.st == Ok && r.chain == chain && r.sent == [] && r.node.local == n.local
  { }

  /** Serving sends the batch and refreshes the cached tip. */
  lemma BatchServed(H: HashFn, n: Node, chain: seq<bytes>, start: nat, max: u64, m: Msg)
    requires start < |chain| < TWO64 && max > 0 && Asks(m, start + 1, max)
    ensures var r := Deliver(H, n, chain, m, Reliable(chain));
            && r.st == Ok && r.chain == chain && r.node.local == TipOf(H, chain)
            && r.sent == Served(H, chain, start + 1, Min(|chain| - start, max))
  { }

  lemma QueueTail(H: HashFn, leader: seq<bytes>, have: nat, peerNo: nat, queue: seq<Msg>, a: nat, b: nat)
    requires QueueShape(H, leader, have, peerNo, queue, a, b) && queue != []
    ensures a == 0 < b ==> QueueShape(H, leader, have + 1, peerNo, queue[1..], 0, b - 1)
    ensures a > 0 || b == 0 ==>
              && (queue[0].Tip? || queue[0].Hello?)
              && QueueShape(H, leader, have, if queue[0].Tip? then queue[0].no else peerNo,
                            queue[1..], Less(a), Less(b))
  {
    var tail := queue[1..];
    if a == 0 < b {
      forall i | 0 <= i < b - 1 ensures tail[i] == SegmentMsg(H, leader, have + 2 + i) {
        assert tail[i] == queue[i + 1];
      }
    } else if queue[0].Tip? {
      forall i | 0 <= i < |tail| && tail[i].Tip? ensures queue[0].no <= tail[i].no { assert tail[i] == queue[i + 1]; }
    }
  }

  function Less(n: nat): nat { if n > 0 then n - 1 else 0 }

  lemma QueueGrow(H: HashFn, leader: seq<bytes>, seg: bytes, have: nat, peerNo: nat, queue: seq<Msg>, a: nat, b: nat)
    requires QueueShape(H, leader, have, peerNo, queue, a, b) && |leader| + 1 < TWO64
    ensures QueueShape(H, leader + [seg], have, peerNo, queue, a, b)
  { }

  lemma HeadIsSegment(H: HashFn, leader: seq<bytes>, have: nat, peerNo: nat, queue: seq<Msg>, a: nat, b: nat)
    requires QueueShape(H, leader, have, peerNo, queue, a, b) && a == 0 < b
    ensures queue != [] && have < |leader| < TWO64 && queue[0] == SegmentMsg(H, leader, have + 1)
  { }

  lemma HeadIsTip(H: HashFn, leader: seq<bytes>, have: nat, peerNo: nat, queue: seq<Msg>, a: nat, b: nat)
    requires QueueShape(H, leader, have, peerNo, queue, a, b) && queue != [] && (a > 0 || b == 0)
    ensures queue[0].Hello? || (TrueTip(queue[0], leader) && peerNo <= queue[0].no)
    ensures |leader| < TWO64
  { }

  lemma QueueAppendSegments(H: HashFn, leader: seq<bytes>, have: nat, peerNo: nat, queue: seq<Msg>, a: nat, count: nat)
    requires QueueShape(H, leader, have, peerNo, queue, a, a) && have + count <= |leader|
    ensures QueueShape(H, leader, have, peerNo, queue + Served(H, leader, have + 1, count), |queue|, |queue| + count)
  { }

  lemma QueueAppend(H: HashFn, leader: seq<bytes>, have: nat, peerNo: nat, queue: seq<Msg>, a: nat, b: nat, m: Msg)
    requires QueueShape(H, leader, have, peerNo, queue, a, b) && peerNo <= |leader|
    requires m.Hello? || m == TipMsg(H, leader)
    ensures QueueShape(H, leader, have, peerNo, queue + [m], a, b)
  { }

  /** The leader's queue under a growing cache, a new old tip or greeting, a first request, and a delivery. */
  lemma LeadQueueKeeps(queue: seq<Msg>, have: nat, max: u64, known: nat, known': nat, m: Msg)
    requires LeadQueue(queue, have, max, known) && known <= known'
    ensures LeadQueue(queue, have, max, known')
    ensures m.Hello? || OldTip(m, known) ==>
              LeadQueue(queue + [m], have, max, known) && HasRequest(queue + [m]) == HasRequest(queue)
    ensures !HasRequest(queue) && Asks(m, have + 1, max) ==> LeadQueue(queue + [m], have, max, known)
  {
    if m.Hello? || OldTip(m, known) {
      assert HasRequest(queue + [m]) ==> HasRequest(queue);
      if i :| 0 <= i < |queue| && queue[i].GetSegments? { assert (queue + [m])[i].GetSegments?; }
    }
  }

  lemma LeadQueueTail(queue: seq<Msg>, have: nat, max: u64, known: nat)
    requires LeadQueue(queue, have, max, known) && queue != []
    ensures LeadQueue(queue[1..], have, max, known)
    ensures HasRequest(queue[1..]) ==> HasRequest(queue) && !queue[0].GetSegments?
    ensures queue[0].Hello? || OldTip(queue[0], known) || (Asks(queue[0], have + 1, max) && HasRequest(queue))
  {
    if i :| 0 <= i < |queue| - 1 && queue[1..][i].GetSegments? { assert queue[i + 1].GetSegments?; }
  }

  /** Without a request in it, the queue does not care how far the follower has come. */
  lemma LeadQueueIdle(queue: seq<Msg>, have: nat, have': nat, max: u64, known: nat)
    requires LeadQueue(queue, have, max, known) && !HasRequest(queue)
    ensures LeadQueue(queue, have', max, known)
  { }

  lemma InvBounds(H: HashFn, s: Sys, a: nat, b: nat)
    requires Inv(H, s, a, b)
    ensures |s.fol.chain| <= |s.lead.chain| < TWO64 && s.fol.node.peerNo <= |s.lead.chain|
    ensures |s.fol.chain| <= CachedNo(s.lead.node)
  { }

  lemma FollowerStep(H: HashFn, s: Sys, a: nat, b: nat)
    requires Inv(H, s, a, b) && s.toFol != []
    ensures Step(H, s, ToFollower).0 == Ok && Honest(H, Step(H, s, ToFollower).1)
  {
    hide Deliver, ChainOk, QueueShape, LeadQueue, HasRequest;
    QueueTail(H, s.lead.chain, |s.fol.chain|, s.fol.node.peerNo, s.toFol, a, b);
    if a == 0 < b { FollowerTakesSegment(H, s, b); } else { FollowerHears(H, s, a, b); }
  }

  lemma FollowerTakesSegment(H: HashFn, s: Sys, b: nat)
    requires Inv(H, s, 0, b) && b > 0
    ensures Step(H, s, ToFollower).0 == Ok && Honest(H, Step(H, s, ToFollower).1)
  {
    hide Deliver, ChainOk, QueueShape, LeadQueue, HasRequest;
    InvBounds(H, s, 0, b);
    HeadIsSegment(H, s.lead.chain, |s.fol.chain|, s.fol.node.peerNo, s.toFol, 0, b);
    QueueTail(H, s.lead.chain, |s.fol.chain|, s.fol.node.peerNo, s.toFol, 0, b);
    SegmentDelivered(H, s.fol.node, s.fol.chain, s.lead.chain);
    var have := |s.fol.chain|;
    LeadQueueIdle(s.toLead, have, have + 1, s.fol.node.maxInflight, CachedNo(s.lead.node));
    var s' := Step(H, s, ToFollower).1;
    assert s'.toLead == s.toLead;
    assert Inv(H, s', 0, b - 1);
  }

  lemma FollowerHears(H: HashFn, s: Sys, a: nat, b: nat)
    requires Inv(H, s, a, b) && s.toFol != [] && (a > 0 || b == 0)
    ensures Step(H, s, ToFollower).0 == Ok && Honest(H, Step(H, s, ToFollower).1)
  {
    hide ChainOk, QueueShape, LeadQueue, HasRequest, RequestMore;
    InvBounds(H, s, a, b);
    var m := s.toFol[0];
    HeadIsTip(H, s.lead.chain, |s.fol.chain|, s.fol.node.peerNo, s.toFol, a, b);
    QueueTail(H, s.lead.chain, |s.fol.chain|, s.fol.node.peerNo, s.toFol, a, b);
    if m.Tip? {
      hide Deliver;
      TipDelivered(H, s.fol.node, s.fol.chain, s.lead.chain, m);
      var known := CachedNo(s.lead.node);
      if |s.fol.chain| < m.no {
        LeadQueueKeeps(s.toLead, |s.fol.chain|, s.fol.node.maxInflight, known, known,
                       GetSegments(|s.fol.chain| + 1, s.fol.node.maxInflight));
      }
    }
    var s' := Step(H, s, ToFollower).1;
    assert s.toLead + [] == s.toLead;
    assert Inv(H, s', Less(a), Less(b));
  }

  lemma LeaderStep(H: HashFn, s: Sys, a: nat, b: nat)
    requires Inv(H, s, a, b) && s.toLead != []
    ensures Step(H, s, ToLeader).0 == Ok && Honest(H, Step(H, s, ToLeader).1)
  {
    hide ChainOk, QueueShape, LeadQueue, HasRequest, Deliver;
    InvBounds(H, s, a, b);
    var have, max, known := |s.fol.chain|, s.fol.node.maxInflight, CachedNo(s.lead.node);
    LeadQueueTail(s.toLead, have, max, known);
    var s' := Step(H, s, ToLeader).1;
    if Asks(s.toLead[0], have + 1, max) {
      BatchServed(H, s.lead.node, s.lead.chain, have, max, s.toLead[0]);
      var count := Min(|s.lead.chain| - have, max);
      QueueAppendSegments(H, s.lead.chain, have, s.fol.node.peerNo, s.toFol, a, count);
      LeadQueueKeeps(s.toLead[1..], have, max, known, |s.lead.chain|, s.toLead[0]);
      assert Inv(H, s', |s.toFol|, |s.toFol| + count);
    } else {
      OldTipDelivered(H, s.lead.node, s.lead.chain, s.toLead[0], Reliable(s.lead.chain));
      assert s.toFol + [] == s.toFol;
      assert Inv(H, s', a, b);
    }
  }

  /** The leader greets or announces its tip. */
  lemma LeaderSpeaks(H: HashFn, s: Sys, act: Act, a: nat, b: nat)
    requires Inv(H, s, a, b) && (act.Announce? || act.Greet?) && |s.lead.chain| < TWO64 && |s.fol.chain| < TWO64
    ensures Step(H, s, act).0 == Ok && Honest(H, Step(H, s, act).1)
  {
    hide ChainOk, QueueShape, LeadQueue, HasRequest;
    InvBounds(H, s, a, b);
    var m := if act.Announce? then TipMsg(H, s.lead.chain) else HelloMsg(act.id);
    QueueAppend(H, s.lead.chain, |s.fol.chain|, s.fol.node.peerNo, s.toFol, a, b, m);
    LeadQueueKeeps(s.toLead, |s.fol.chain|, s.fol.node.maxInflight, CachedNo(s.lead.node), |s.lead.chain|, m);
    assert Inv(H, Step(H, s, act).1, a, b);
  }

  /** The follower greets or announces its tip, which the leader has no use for. */
  lemma FollowerSpeaks(H: HashFn, s: Sys, act: Act, a: nat, b: nat)
    requires Inv(H, s, a, b) && (act.FollowerAnnounce? || act.FollowerGreet?)
    requires |s.lead.chain| < TWO64 && |s.fol.chain| < TWO64
    ensures Step(H, s, act).0 == Ok && Honest(H, Step(H, s, act).1)
  {
    hide ChainOk, QueueShape, LeadQueue, HasRequest;
    InvBounds(H, s, a, b);
    var m := if act.FollowerAnnounce? then TipMsg(H, s.fol.chain) else HelloMsg(act.id);
    var known := CachedNo(s.lead.node);
    LeadQueueKeeps(s.toLead, |s.fol.chain|, s.fol.node.maxInflight, known, known, m);
    assert Inv(H, Step(H, s, act).1, a, b);
  }

  lemma GrowStep(H: HashFn, s: Sys, seg: bytes, a: nat, b: nat)
    requires Inv(H, s, a, b) && |s.lead.chain| + 1 < TWO64
    ensures Step(H, s, Grow(seg)).0 == Ok && Honest(H, Step(H, s, Grow(seg)).1)
  {
    hide ChainOk, QueueShape, LinkStatus, LeadQueue, HasRequest;
    InvBounds(H, s, a, b);
    if LinkStatus(H, false, seg, |s.lead.chain| + 1, PrevHash(H, s.lead.chain, |s.lead.chain|)) == Ok {
      ChainExtend(H, false, s.lead.chain, seg);
      QueueGrow(H, s.lead.chain, seg, |s.fol.chain|, s.fol.node.peerNo, s.toFol, a, b);
    }
    assert Inv(H, Step(H, s, Grow(seg)).1, a, b);
  }

  /** Every step of the honest pair succeeds (no segment is ever rejected) and keeps the invariant. */
  lemma HonestStep(H: HashFn, s: Sys, act: Act)
    requires Honest(H, s) && |s.lead.chain| + 1 < TWO64 && |s.fol.chain| < TWO64
    ensures Step(H, s, act).0 == Ok && Honest(H, Step(H, s, act).1)
    ensures |Step(H, s, act).1.lead.chain| <= |s.lead.chain| + 1
  {
    hide Inv, Deliver;
    var a, b :| Inv(H, s, a, b);
    assert |Step(H, s, act).1.lead.chain| <= |s.lead.chain| + 1 by { LeaderGrowth(H, s, act, a, b); }
    match act
    case Grow(seg) => GrowStep(H, s, seg, a, b);
    case Announce => LeaderSpeaks(H, s, act, a, b);
    case Greet(_) => LeaderSpeaks(H, s, act, a, b);
    case FollowerAnnounce => FollowerSpeaks(H, s, act, a, b);
    case FollowerGreet(_) => FollowerSpeaks(H, s, act, a, b);
    case ToFollower => if s.toFol != [] { FollowerStep(H, s, a, b); }
    case ToLeader => if s.toLead != [] { LeaderStep(H, s, a, b); }
  }

  lemma LeaderGrowth(H: HashFn, s: Sys, act: Act, a: nat, b: nat)
    requires Inv(H, s, a, b) && |s.lead.chain| < TWO64 && |s.fol.chain| < TWO64
    ensures |Step(H, s, act).1.lead.chain| <= |s.lead.chain| + 1
  {
    hide ChainOk, QueueShape, LeadQueue, HasRequest, Deliver;
    InvBounds(H, s, a, b);
    if act.ToLeader? && s.toLead != [] {
      var have, max := |s.fol.chain|, s.fol.node.maxInflight;
      LeadQueueTail(s.toLead, have, max, CachedNo(s.lead.node));
      if Asks(s.toLead[0], have + 1, max) {
        BatchServed(H, s.lead.node, s.lead.chain, have, max, s.toLead[0]);
      } else {
        OldTipDelivered(H, s.lead.node, s.lead.chain, s.toLead[0], Reliable(s.lead.chain));
      }
    }
  }

  /** A run, and whether every step of it returned OK. */
  function Run(H: HashFn, s: Sys, acts: seq<Act>): (bool, Sys)
    decreases |acts|
  {
    if acts == [] || |s.lead.chain| >= TWO64 || |s.fol.chain| >= TWO64 then (true, s) else
    var (st, s') := Step(H, s, acts[0]);
    var (ok, s'') := Run(H, s', acts[1..]);
    (st == Ok && ok, s'')
  }

  lemma HonestBounds(H: HashFn, s: Sys)
    requires Honest(H, s)
    ensures |s.fol.chain| <= |s.lead.chain| < TWO64
  {
    hide Inv;
    var a, b :| Inv(H, s, a, b);
    InvBounds(H, s, a, b);
  }

  lemma {:induction false} HonestRun(H: HashFn, s: Sys, acts: seq<Act>)
    requires Honest(H, s) && |s.lead.chain| + |acts| + 1 < TWO64
    ensures Run(H, s, acts).0 && Honest(H, Run(H, s, acts).1)
    decreases |acts|
  {
    hide Honest, Step;
    HonestBounds(H, s);
    if acts != [] {
      HonestStep(H, s, acts[0]);
      HonestRun(H, Step(H, s, acts[0]).1, acts[1..]);
    }
  }

  /** Two nodes as they start: new engines, the follower's store a prefix of the leader's, nothing in flight. */
  predicate Start(H: HashFn, s: Sys, max: u64, leadMax: u64) {
    && s.fol.chain <= s.lead.chain && |s.lead.chain| < TWO64
    && s.fol.node == Fresh(H, s.fol.chain, max) && s.lead.node == Fresh(H, s.lead.chain, leadMax)
    && s.toFol == [] && s.toLead == [] && s.log == []
  }

  /** What the invariant says about a state: the follower holds a prefix of the leader's store; at most one
      request is on its way, for the next number; the queued segments are the leader's, in order from that
      number; the leader has asked for nothing. */
  ghost predicate Orderly(H: HashFn, s: Sys) {
    && s.fol.chain <= s.lead.chain && |s.lead.chain| < TWO64
    && (forall i :: 0 <= i < |s.toLead| && s.toLead[i].GetSegments? ==>
          Asks(s.toLead[i], |s.fol.chain| + 1, s.fol.node.maxInflight))
    && (forall i, j :: 0 <= i < j < |s.toLead| ==> !(s.toLead[i].GetSegments? && s.toLead[j].GetSegments?))
    && (exists a, b :: QueueShape(H, s.lead.chain, |s.fol.chain|, s.fol.node.peerNo, s.toFol, a, b))
    && !HasRequest(s.toFol)
  }

  lemma HonestIsOrderly(H: HashFn, s: Sys)
    requires Honest(H, s)
    ensures Orderly(H, s)
  {
    hide ChainOk;
    var a, b :| Inv(H, s, a, b);
    assert QueueShape(H, s.lead.chain, |s.fol.chain|, s.fol.node.peerNo, s.toFol, a, b);
  }

  /** Over every run of an honest pair, both announcing and greeting, with a growing leader, no step fails, so
      no segment is ever rejected, and every state is orderly. */
  lemma HonestPair(H: HashFn, s: Sys, max: u64, leadMax: u64, acts: seq<Act>)
    requires ChainOk(H, false, s.lead.chain) && Start(H, s, max, leadMax) && |s.lead.chain| + |acts| + 1 < TWO64
    ensures Run(H, s, acts).0 && Orderly(H, Run(H, s, acts).1)
  {
    hide Run, Honest, Orderly, ChainOk, Start;
    StartIsHonest(H, s, max, leadMax);
    HonestRun(H, s, acts);
    HonestIsOrderly(H, Run(H, s, acts).1);
  }

  lemma StartIsHonest(H: HashFn, s: Sys, max: u64, leadMax: u64)
    requires ChainOk(H, false, s.lead.chain) && Start(H, s, max, leadMax)
    ensures Honest(H, s)
  {
    hide ChainOk;
    assert Inv(H, s, 0, 0);
  }

  // ---------------------------------------------------------------- convergence with a static leader

  /** Segments one request brings. */
  function Batch(s: Sys, start: nat, max: nat): nat
    requires start <= |s.lead.chain|
  { Min(|s.lead.chain| - start, max) }

  /** The leader's tip is on its way; the follower has asked for nothing. */
  ghost predicate Announced(H: HashFn, s: Sys, start: nat)
    requires |s.lead.chain| < TWO64
  {
    && s.toFol == [TipMsg(H, s.lead.chain)] && s.toLead == [] && s.log == []
    && |s.fol.chain| == start && !s.fol.node.awaiting
  }

  /** The one request is on its way. */
  ghost predicate Requested(s: Sys, start: nat, max: u64) {
    && s.toFol == [] && |s.toLead| == 1 && s.log == s.toLead && Asks(s.toLead[0], start + 1, max)
    && |s.fol.chain| == start && s.fol.node.awaiting && s.fol.node.peerNo == |s.lead.chain|
  }

  /** left segments of the one batch are still queued. */
  ghost predicate Arriving(H: HashFn, s: Sys, start: nat, max: u64, left: nat)
    requires start <= |s.lead.chain| < TWO64 && left <= Batch(s, start, max)
  {
    var count := Batch(s, start, max);
    && s.toLead == [] && s.toFol == Served(H, s.lead.chain, start + 1 + (count - left), left)
    && |s.fol.chain| == start + (count - left) && s.fol.node.peerNo == |s.lead.chain|
    && s.fol.node.awaiting == (|s.fol.chain| < |s.lead.chain|)
    && (if count == 0 then s.log == [] else
        |s.log| == count + 1 && Asks(s.log[0], start + 1, max)
        && s.log[1..] == Served(H, s.lead.chain, start + 1, count))
  }

  /** left deliveries before the end of a run in which the follower started with start segments. */
  ghost predicate Phase(H: HashFn, s: Sys, start: nat, max: u64, left: nat) {
    && ChainOk(H, false, s.lead.chain) && start <= |s.lead.chain| < TWO64
    && FollowerState(H, s.fol.node, s.fol.chain, s.lead.chain) && s.fol.node.maxInflight == max
    && var count := Batch(s, start, max);
    || (left == Deliveries(count) && Announced(H, s, start))
    || (count > 0 && left == count + 1 && Requested(s, start, max))
    || (left <= count && Arriving(H, s, start, max, left))
  }

  /** The tip alone, or the tip, the request and the batch. */
  function Deliveries(count: nat): nat { if count == 0 then 1 else count + 2 }

  /** Does this delivery find a message? */
  predicate Effective(s: Sys, act: Act) { (act.ToFollower? && s.toFol != []) || (act.ToLeader? && s.toLead != []) }

  lemma PhaseTip(H: HashFn, s: Sys, start: nat, max: u64, left: nat)
    requires Phase(H, s, start, max, left) && s.toFol != [] && s.toFol[0].Tip?
    ensures left > 0 && Phase(H, Step(H, s, ToFollower).1, start, max, left - 1)
  {
    hide ChainOk, Deliver;
    TipDelivered(H, s.fol.node, s.fol.chain, s.lead.chain, s.toFol[0]);
    assert s.toFol[1..] == [];
  }

  lemma PhaseRequest(H: HashFn, s: Sys, start: nat, max: u64, left: nat)
    requires Phase(H, s, start, max, left) && s.toLead != []
    ensures left > 0 && Phase(H, Step(H, s, ToLeader).1, start, max, left - 1)
    ensures Step(H, s, ToLeader).1.lead.chain == s.lead.chain
  {
    hide ChainOk, FollowerState, Served, Deliver, Announced, Arriving;
    PhasePeer(H, s, start, max, left);
    var s' := Step(H, s, ToLeader).1;
    var count := Batch(s, start, max);
    assert count > 0 && left == count + 1 && Requested(s, start, max) by { PhaseOfRequest(H, s, start, max, left); }
    BatchServed(H, s.lead.node, s.lead.chain, start, max, s.toLead[0]);
    assert s'.lead.chain == s.lead.chain;
    RequestedStep(H, s, s', start, max);
  }

  lemma PhaseOfRequest(H: HashFn, s: Sys, start: nat, max: u64, left: nat)
    requires Phase(H, s, start, max, left) && s.toLead != []
    ensures Batch(s, start, max) > 0 && left == Batch(s, start, max) + 1 && Requested(s, start, max)
  { hide ChainOk, FollowerState, Requested, Served; }

  lemma RequestedStep(H: HashFn, s: Sys, s': Sys, start: nat, max: u64)
    requires start <= |s.lead.chain| < TWO64 && Requested(s, start, max) && Batch(s, start, max) > 0
    requires var batch := Served(H, s.lead.chain, start + 1, Batch(s, start, max));
      && s'.lead.chain == s.lead.chain && s'.fol == s.fol
      && s'.toLead == s.toLead[1..] && s'.toFol == s.toFol + batch && s'.log == s.log + batch
    ensures Arriving(H, s', start, max, Batch(s', start, max))
  {
    hide Served;
    var batch := Served(H, s.lead.chain, start + 1, Batch(s, start, max));
    assert s'.toFol == [] + batch == batch && s'.log[1..] == batch;
  }

  lemma PhasePeer(H: HashFn, s: Sys, start: nat, max: u64, left: nat)
    requires Phase(H, s, start, max, left)
    ensures max > 0 && |s.fol.chain| <= |s.lead.chain|
  { hide ChainOk; }

  lemma PhaseSegment(H: HashFn, s: Sys, start: nat, max: u64, left: nat)
    requires Phase(H, s, start, max, left) && s.toFol != [] && s.toFol[0].SegmentData?
    ensures left > 0 && Phase(H, Step(H, s, ToFollower).1, start, max, left - 1)
  {
    hide ChainOk, Deliver;
    SegmentDelivered(H, s.fol.node, s.fol.chain, s.lead.chain);
    ServedTail(H, s.lead.chain, |s.fol.chain| + 1, left);
  }

  lemma ServedTail(H: HashFn, chain: seq<bytes>, from: nat, k: nat)
    requires 1 <= from && from + k <= |chain| + 1 && |chain| < TWO64 && k > 0
    ensures Served(H, chain, from, k)[0] == SegmentMsg(H, chain, from)
    ensures Served(H, chain, from, k)[1..] == Served(H, chain, from + 1, k - 1)
  { }

  lemma PhaseStep(H: HashFn, s: Sys, start: nat, max: u64, left: nat, act: Act)
    requires Phase(H, s, start, max, left) && (act.ToFollower? || act.ToLeader?) && |s.fol.chain| < TWO64
    ensures Effective(s, act) ==> left > 0 && Phase(H, Step(H, s, act).1, start, max, left - 1)
    ensures !Effective(s, act) ==> Step(H, s, act).1 == s
    ensures Step(H, s, act).1.lead.chain == s.lead.chain
  {
    hide ChainOk, Deliver;
    if act.ToFollower? && s.toFol != [] {
      if s.toFol[0].Tip? { PhaseTip(H, s, start, max, left); } else { PhaseSegment(H, s, start, max, left); }
    }
    if act.ToLeader? && s.toLead != [] { PhaseRequest(H, s, start, max, left); }
  }

  predicate OnlyDeliveries(acts: seq<Act>) { forall i :: 0 <= i < |acts| ==> acts[i].ToFollower? || acts[i].ToLeader? }

  /** How many of these deliveries found a message. */
  function Found(H: HashFn, s: Sys, acts: seq<Act>): nat
    decreases |acts|
  {
    if acts == [] || |s.lead.chain| >= TWO64 || |s.fol.chain| >= TWO64 then 0
    else (if Effective(s, acts[0]) then 1 else 0) + Found(H, Step(H, s, acts[0]).1, acts[1..])
  }

  lemma {:induction false} PhaseRun(H: HashFn, s: Sys, start: nat, max: u64, left: nat, acts: seq<Act>)
    requires Phase(H, s, start, max, left) && OnlyDeliveries(acts)
    ensures Found(H, s, acts) <= left && Phase(H, Run(H, s, acts).1, start, max, left - Found(H, s, acts))
    ensures Run(H, s, acts).1.lead.chain == s.lead.chain
    decreases |acts|
  {
    hide Phase, Step, Effective;
    if acts != [] {
      PhaseBounds(H, s, start, max, left);
      PhaseStep(H, s, start, max, left, acts[0]);
      var s' := Step(H, s, acts[0]).1;
      PhaseRun(H, s', start, max, if Effective(s, acts[0]) then left - 1 else left, acts[1..]);
    }
  }

  lemma PhaseBounds(H: HashFn, s: Sys, start: nat, max: u64, left: nat)
    requires Phase(H, s, start, max, left)
    ensures start <= |s.lead.chain| < TWO64 && |s.fol.chain| < TWO64
  { hide ChainOk; }

  /** How a run ends: the follower has min(leader's tip, start + max) segments, all of them the leader's;
      it has caught up exactly when the gap was at most max, otherwise its awaiting flag is left set; one
      request and one segment per number were sent. */
  ghost predicate Finished(H: HashFn, s: Sys, start: nat, max: u64) {
    && s.toFol == [] && s.toLead == [] && start <= |s.lead.chain| < TWO64
    && s.fol.chain == s.lead.chain[..Min(|s.lead.chain|, start + max)]
    && s.fol.node.local == TipOf(H, s.fol.chain)
    && (s.fol.chain == s.lead.chain <==> |s.lead.chain| - start <= max)
    && s.fol.node.awaiting == (|s.lead.chain| - start > max)
    && var count := Batch(s, start, max);
    && |s.log| == Deliveries(count) - 1
    && (count > 0 ==> Asks(s.log[0], start + 1, max) && s.log[1..] == Served(H, s.lead.chain, start + 1, count))
  }

  lemma PhaseEnd(H: HashFn, s: Sys, start: nat, max: u64, left: nat)
    requires Phase(H, s, start, max, left)
    ensures left == 0 <==> s.toFol == [] && s.toLead == []
    ensures left == 0 ==> Finished(H, s, start, max)
  {
    hide ChainOk;
    if left == 0 { assert s.fol.chain == s.lead.chain[..|s.fol.chain|]; }
  }

  /** A round begins: the leader's tip is on its way, the follower awaits nothing. Earlier rounds may have
      left any true peer tip behind. */
  ghost predicate Ready(H: HashFn, s: Sys) {
    && |s.lead.chain| < TWO64 && FollowerState(H, s.fol.node, s.fol.chain, s.lead.chain) && !s.fol.node.awaiting
    && s.toFol == [TipMsg(H, s.lead.chain)] && s.toLead == [] && s.log == []
  }

  lemma ReadyPhase(H: HashFn, s: Sys)
    requires ChainOk(H, false, s.lead.chain) && Ready(H, s)
    ensures var start, m := |s.fol.chain|, s.fol.node.maxInflight;
            Phase(H, s, start, m, Deliveries(Batch(s, start, m)))
  { hide ChainOk; }

  /** Exact convergence. Once the leader's tip is on its way, deliver in any order: a run never makes more
      than one delivery for the tip, one for the request and one per segment, its queues are empty exactly
      when it has made them all, and then it is finished as described above. */
  lemma ExactConvergence(H: HashFn, s: Sys, acts: seq<Act>)
    requires ChainOk(H, false, s.lead.chain) && Ready(H, s) && OnlyDeliveries(acts)
    ensures var start, m := |s.fol.chain|, s.fol.node.maxInflight;
            var s' := Run(H, s, acts).1;
            && s'.lead.chain == s.lead.chain
            && Found(H, s, acts) <= Deliveries(Batch(s, start, m))
            && (Found(H, s, acts) == Deliveries(Batch(s, start, m)) <==> s'.toFol == [] && s'.toLead == [])
            && (s'.toFol == [] && s'.toLead == [] ==> Finished(H, s', start, m))
  {
    hide Run, Found, ChainOk, Phase, Finished;
    var start, m := |s.fol.chain|, s.fol.node.maxInflight;
    var all := Deliveries(Batch(s, start, m));
    ReadyPhase(H, s);
    PhaseRun(H, s, start, m, all, acts);
    PhaseEnd(H, Run(H, s, acts).1, start, m, all - Found(H, s, acts));
  }

  /** Two new engines are ready once the leader has announced its tip. */
  lemma FirstRound(H: HashFn, s: Sys, max: u64, leadMax: u64)
    requires Start(H, s, max, leadMax)
    ensures Ready(H, Step(H, s, Announce).1.(log := []))
    ensures CachedNo(Step(H, s, Announce).1.lead.node) == |s.lead.chain|
  { }

  /** A round that caught up is followed by another as soon as the leader announces again, whatever it has
      appended by then; only the account of sent messages starts anew. */
  lemma NextRound(H: HashFn, s: Sys, start: nat, max: u64, more: seq<bytes>)
    requires Phase(H, s, start, max, 0) && |s.lead.chain| - start <= max && |s.lead.chain| + |more| < TWO64
    ensures var grown := s.(lead := s.lead.(chain := s.lead.chain + more));
            |s.fol.chain| < TWO64 && Ready(H, Step(H, grown, Announce).1.(log := []))
  { hide ChainOk; }

  // ---------------------------------------------------------------- after a gap that one batch cannot close

  predicate NoSegments(queue: seq<Msg>) { forall i :: 0 <= i < |queue| ==> !queue[i].SegmentData? }

  /** The follower waits, but nothing it waits for is on its way. */
  ghost predicate Stuck(H: HashFn, s: Sys) {
    Honest(H, s) && s.fol.node.awaiting && !HasRequest(s.toLead) && NoSegments(s.toFol)
  }

  lemma QueuedSegments(H: HashFn, leader: seq<bytes>, have: nat, peerNo: nat, queue: seq<Msg>, a: nat, b: nat)
    requires QueueShape(H, leader, have, peerNo, queue, a, b)
    ensures NoSegments(queue) ==> a == b
  { assert a < b ==> queue[a].SegmentData?; }

  lemma StuckFollowerHears(H: HashFn, s: Sys, a: nat, b: nat)
    requires Inv(H, s, a, b) && Stuck(H, s) && s.toFol != []
    ensures var s' := Step(H, s, ToFollower).1;
            s'.fol.chain == s.fol.chain && s'.toLead == s.toLead && s'.fol.node.awaiting && NoSegments(s'.toFol)
  {
    hide ChainOk, HasRequest, LeadQueue, Honest;
    QueuedSegments(H, s.lead.chain, |s.fol.chain|, s.fol.node.peerNo, s.toFol, a, b);
    HeadIsTip(H, s.lead.chain, |s.fol.chain|, s.fol.node.peerNo, s.toFol, a, b);
    if s.toFol[0].Tip? {
      hide Deliver;
      TipDelivered(H, s.fol.node, s.fol.chain, s.lead.chain, s.toFol[0]);
    }
  }

  lemma StuckLeaderHears(H: HashFn, s: Sys, a: nat, b: nat)
    requires Inv(H, s, a, b) && Stuck(H, s) && s.toLead != []
    ensures var s' := Step(H, s, ToLeader).1;
            s'.fol == s.fol && !HasRequest(s'.toLead) && s'.toFol == s.toFol
  {
    hide ChainOk, QueueShape, Honest, Deliver, NoSegments;
    InvBounds(H, s, a, b);
    LeadQueueTail(s.toLead, |s.fol.chain|, s.fol.node.maxInflight, CachedNo(s.lead.node));
    OldTipDelivered(H, s.lead.node, s.lead.chain, s.toLead[0], Reliable(s.lead.chain));
  }

  lemma StuckStep(H: HashFn, s: Sys, act: Act)
    requires Stuck(H, s) && |s.lead.chain| + 1 < TWO64 && |s.fol.chain| < TWO64
    ensures Stuck(H, Step(H, s, act).1) && Step(H, s, act).1.fol.chain == s.fol.chain
  {
    hide Inv, Deliver, LinkStatus;
    HonestStep(H, s, act);
    var a, b :| Inv(H, s, a, b);
    if act.ToFollower? && s.toFol != [] { StuckFollowerHears(H, s, a, b); }
    if act.ToLeader? && s.toLead != [] { StuckLeaderHears(H, s, a, b); }
  }

  lemma {:induction false} StuckRun(H: HashFn, s: Sys, acts: seq<Act>)
    requires Stuck(H, s) && |s.lead.chain| + |acts| + 1 < TWO64
    ensures Stuck(H, Run(H, s, acts).1) && Run(H, s, acts).1.fol.chain == s.fol.chain
    decreases |acts|
  {
    hide Stuck, Step;
    assert |s.fol.chain| < TWO64 by { StuckBounds(H, s); }
    if acts != [] {
      StuckStep(H, s, acts[0]);
      assert |Step(H, s, acts[0]).1.lead.chain| <= |s.lead.chain| + 1 by {
        StuckHonest(H, s); HonestStep(H, s, acts[0]); }
      StuckRun(H, Step(H, s, acts[0]).1, acts[1..]);
    }
  }

  lemma StuckHonest(H: HashFn, s: Sys)
    requires Stuck(H, s)
    ensures Honest(H, s)
  { }

  lemma StuckBounds(H: HashFn, s: Sys)
    requires Stuck(H, s)
    ensures |s.fol.chain| < TWO64
  { HonestBounds(H, s); }

  /** Convergence fails for every gap above max, and for good: once the first round is over, no growth,
      announcement, greeting or delivery ever adds a segment to the follower's store or makes it ask. */
  lemma StuckForever(H: HashFn, s: Sys, acts: seq<Act>, more: seq<Act>)
    requires ChainOk(H, false, s.lead.chain) && Ready(H, s) && OnlyDeliveries(acts)
    requires CachedNo(s.lead.node) == |s.lead.chain| && |s.lead.chain| + |acts| + |more| + 1 < TWO64
    requires Run(H, s, acts).1.toFol == [] && Run(H, s, acts).1.toLead == []
    requires |s.lead.chain| - |s.fol.chain| > s.fol.node.maxInflight
    ensures var over := Run(H, s, acts).1; var later := Run(H, over, more).1;
            && over.fol.chain == s.lead.chain[..|s.fol.chain| + s.fol.node.maxInflight]
            && later.fol.chain == over.fol.chain && later.fol.node.awaiting && !HasRequest(later.toLead)
  {
    hide Run, Found, ChainOk, Honest, Inv;
    assert Honest(H, s) by { ReadyIsHonest(H, s); }
    HonestRun(H, s, acts);
    ExactConvergence(H, s, acts);
    StuckRun(H, Run(H, s, acts).1, more);
  }

  lemma ReadyIsHonest(H: HashFn, s: Sys)
    requires ChainOk(H, false, s.lead.chain) && Ready(H, s) && CachedNo(s.lead.node) == |s.lead.chain|
    ensures Honest(H, s)
  {
    hide ChainOk;
    assert Inv(H, s, 0, 0);
  }

  /** There are such pairs, for every start, batch size and larger gap. */
  lemma GapExists(H: HashFn, start: nat, max: u64, n: nat) returns (s: Sys)
    requires 0 < max && start + max < n < TWO63
    ensures ChainOk(H, false, s.lead.chain) && Ready(H, s) && CachedNo(s.lead.node) == |s.lead.chain| == n
    ensures |s.fol.chain| == start && s.fol.node.maxInflight == max
  {
    var chain := Ledger.VerifiedChain(H, n);
    hide ChainOk, Ready;
    s := Sys(Peer(Fresh(H, chain, 0), chain), Peer(Fresh(H, chain[..start], max), chain[..start]),
             [TipMsg(H, chain)], [], []);
    FreshIsReady(H, s, max);
  }

  lemma FreshIsReady(H: HashFn, s: Sys, max: u64)
    requires s.fol.chain <= s.lead.chain && |s.lead.chain| < TWO64 && s.fol.node == Fresh(H, s.fol.chain, max)
    requires s.toFol == [TipMsg(H, s.lead.chain)] && s.toLead == [] && s.log == []
    ensures Ready(H, s)
  { }

  /** The tips it hears from then on, all above its own, in any number. */
  predicate HigherTips(ms: seq<Msg>, have: nat) { forall i :: 0 <= i < |ms| ==> ms[i].Tip? && ms[i].no > have }

  function Hear(H: HashFn, n: Node, chain: seq<bytes>, ms: seq<Msg>, env: Env): (Node, seq<Msg>)
    requires |chain| < TWO64
    decreases |ms|
  {
    if ms == [] then (n, []) else
    var r := Deliver(H, n, chain, ms[0], env);
    var (n', sent) := Hear(H, r.node, chain, ms[1..], env);
    (n', r.sent + sent)
  }

  /** The reason lies in one node: left waiting, it answers no higher tip, true or not, whatever fails. */
  lemma {:induction false} StuckAfterBatch(H: HashFn, n: Node, chain: seq<bytes>, ms: seq<Msg>, env: Env)
    requires |chain| < TWO64 && n.awaiting && n.local == TipOf(H, chain) && HigherTips(ms, |chain|)
    ensures Hear(H, n, chain, ms, env).1 == [] && Hear(H, n, chain, ms, env).0.awaiting
    decreases |ms|
  {
    if ms != [] {
      var r := Deliver(H, n, chain, ms[0], env);
      assert r.node.awaiting && r.node.local == n.local && r.sent == [];
      StuckAfterBatch(H, r.node, chain, ms[1..], env);
    }
  }

  // ---------------------------------------------------------------- a channel that loses, repeats and reorders

  /** Everything either side ever sent; any of it may be delivered at any time, any number of times. */
  datatype Loose = Loose(lead: Peer, fol: Peer, sentToFol: set<Msg>, sentToLead: set<Msg>)

  datatype LooseAct =
    | LeaderGrows(segment: bytes)
    | LeaderAnnounces(canSend: bool)
    | FollowerAnnounces(canSend: bool)
    | Greets(id: Bytes32)
    | DeliverToFollower(m: Msg, env: Env)
    | DeliverToLeader(m: Msg, env: Env)

  function LooseStep(H: HashFn, s: Loose, act: LooseAct): Loose
    requires |s.lead.chain| < TWO64 && |s.fol.chain| < TWO64
  {
    match act
    case LeaderGrows(seg) =>
      if LinkStatus(H, false, seg, |s.lead.chain| + 1, PrevHash(H, s.lead.chain, |s.lead.chain|)) == Ok
      then s.(lead := s.lead.(chain := s.lead.chain + [seg])) else s
    case LeaderAnnounces(canSend) =>
      var r := SendTip(H, s.lead.node, s.lead.chain, canSend);
      s.(lead := Peer(r.node, r.chain), sentToFol := s.sentToFol + set m | m in r.sent)
    case FollowerAnnounces(canSend) =>
      var r := SendTip(H, s.fol.node, s.fol.chain, canSend);
      s.(fol := Peer(r.node, r.chain), sentToLead := s.sentToLead + set m | m in r.sent)
    case Greets(id) =>
      s.(sentToFol := s.sentToFol + {HelloMsg(id)}, sentToLead := s.sentToLead + {HelloMsg(id)})
    case DeliverToFollower(m, env) =>
      if m !in s.sentToFol then s else
      var r := Deliver(H, s.fol.node, s.fol.chain, m, env);
      s.(fol := Peer(r.node, r.chain), sentToLead := s.sentToLead + set x | x in r.sent)
    case DeliverToLeader(m, env) =>
      if m !in s.sentToLead then s else
      var r := Deliver(H, s.lead.node, s.lead.chain, m, env);
      s.(lead := Peer(r.node, r.chain), sentToFol := s.sentToFol + set x | x in r.sent)
  }

  /** Greetings, tips, and segments out of the leader's own chain up to a number it knows of. */
  predicate FromLeader(H: HashFn, m: Msg, leader: seq<bytes>, known: nat)
    requires known <= |leader| < TWO64
  {
    m.Hello? || m.Tip? || (m.SegmentData? && 1 <= m.no <= known && m == SegmentMsg(H, leader, m.no))
  }

  /** Greetings, requests, and tips the leader has no use for. */
  predicate FromFollower(m: Msg, known: nat) { m.Hello? || m.GetSegments? || OldTip(m, known) }

  ghost predicate LooseInv(H: HashFn, s: Loose) {
    && |s.fol.chain| <= CachedNo(s.lead.node) <= |s.lead.chain| < TWO64
    && s.fol.chain <= s.lead.chain && s.fol.node.local == TipOf(H, s.fol.chain)
    && (forall m :: m in s.sentToFol ==> FromLeader(H, m, s.lead.chain, CachedNo(s.lead.node)))
    && (forall m :: m in s.sentToLead ==> FromFollower(m, CachedNo(s.lead.node)))
  }

  lemma FollowerKeepsPrefix(H: HashFn, n: Node, chain: seq<bytes>, leader: seq<bytes>, known: nat, m: Msg, env: Env)
    requires |chain| <= known <= |leader| < TWO64 && chain <= leader && n.local == TipOf(H, chain)
    requires FromLeader(H, m, leader, known)
    ensures var r := Deliver(H, n, chain, m, env);
            && r.chain <= leader && |r.chain| <= known && r.node.local == TipOf(H, r.chain)
            && forall i :: 0 <= i < |r.sent| ==> r.sent[i].GetSegments?
  {
    hide LogAppendStatus, SegmentFormat.VerifyStatus, SegmentFormat.Decode;
    if m.SegmentData? && ApplyCheck(H, n, m.no, m.hash, m.data) == Ok {
      assert m.no == NextNo(n.local) == |chain| + 1;
      assert chain + [leader[|chain|]] <= leader;
    }
  }

  /** The leader answers requests out of its own chain, after refreshing its tip, and nothing else. */
  lemma LeaderSendsOwn(H: HashFn, n: Node, chain: seq<bytes>, m: Msg, env: Env)
    requires CachedNo(n) <= |chain| < TWO64 && FromFollower(m, CachedNo(n))
    ensures var r := Deliver(H, n, chain, m, env);
            && r.chain == chain && CachedNo(n) <= CachedNo(r.node) <= |chain|
            && forall i :: 0 <= i < |r.sent| ==> FromLeader(H, r.sent[i], chain, CachedNo(r.node))
  { if !m.GetSegments? { OldTipDelivered(H, n, chain, m, env); } }

  lemma KnowsMore(H: HashFn, m: Msg, leader: seq<bytes>, more: seq<bytes>, known: nat, known': nat)
    requires known <= |leader| && known <= known' <= |leader + more| < TWO64
    ensures FromLeader(H, m, leader, known) ==> FromLeader(H, m, leader + more, known')
    ensures FromFollower(m, known) ==> FromFollower(m, known')
  { }

  lemma LooseLeaderSteps(H: HashFn, s: Loose, lead: Peer, more: seq<bytes>, sent: seq<Msg>)
    requires LooseInv(H, s) && lead.chain == s.lead.chain + more && |lead.chain| < TWO64
    requires CachedNo(s.lead.node) <= CachedNo(lead.node) <= |lead.chain|
    requires forall i :: 0 <= i < |sent| ==> FromLeader(H, sent[i], lead.chain, CachedNo(lead.node))
    ensures LooseInv(H, s.(lead := lead, sentToFol := s.sentToFol + set m | m in sent))
  {
    hide FromLeader, FromFollower;
    forall m ensures
      && (FromLeader(H, m, s.lead.chain, CachedNo(s.lead.node)) ==> FromLeader(H, m, lead.chain, CachedNo(lead.node)))
      && (FromFollower(m, CachedNo(s.lead.node)) ==> FromFollower(m, CachedNo(lead.node)))
    { KnowsMore(H, m, s.lead.chain, more, CachedNo(s.lead.node), CachedNo(lead.node)); }
  }

  lemma LooseStepKeeps(H: HashFn, s: Loose, act: LooseAct)
    requires LooseInv(H, s) && |s.lead.chain| + 1 < TWO64
    ensures LooseInv(H, LooseStep(H, s, act)) && |LooseStep(H, s, act).lead.chain| <= |s.lead.chain| + 1
  {
    hide Deliver, LinkStatus;
    match act
    case LeaderGrows(seg) =>
      LooseLeaderSteps(H, s, s.lead.(chain := s.lead.chain + [seg]), [seg], []);
      assert s.sentToFol + (set m: Msg | m in []) == s.sentToFol;
    case LeaderAnnounces(canSend) =>
      var r := SendTip(H, s.lead.node, s.lead.chain, canSend);
      LooseLeaderSteps(H, s, Peer(r.node, r.chain), [], r.sent);
    case FollowerAnnounces(_) =>
    case Greets(_) =>
    case DeliverToFollower(m, env) =>
      if m in s.sentToFol {
        FollowerKeepsPrefix(H, s.fol.node, s.fol.chain, s.lead.chain, CachedNo(s.lead.node), m, env);
      }
    case DeliverToLeader(m, env) =>
      if m in s.sentToLead {
        LeaderSendsOwn(H, s.lead.node, s.lead.chain, m, env);
        var r := Deliver(H, s.lead.node, s.lead.chain, m, env);
        LooseLeaderSteps(H, s, Peer(r.node, r.chain), [], r.sent);
      }
  }

  /** A node that has come to wait has just asked. */
  lemma WaitingMeansAsked(H: HashFn, n: Node, chain: seq<bytes>, m: Msg, env: Env)
    requires |chain| < TWO64
    ensures var r := Deliver(H, n, chain, m, env); r.node.awaiting && !n.awaiting ==> HasRequest(r.sent)
  {
    hide ApplyCheck, LogAppendStatus;
    var r := Deliver(H, n, chain, m, env);
    if r.node.awaiting && !n.awaiting { assert r.sent != [] && r.sent[0].GetSegments?; }
  }

  ghost predicate SetAsked(ms: set<Msg>) { exists m :: m in ms && m.GetSegments? }

  /** Whoever waits has sent a request at some time. */
  ghost predicate WaitersAsked(s: Loose) {
    && (s.fol.node.awaiting ==> SetAsked(s.sentToLead))
    && (s.lead.node.awaiting ==> SetAsked(s.sentToFol))
  }

  lemma WaitersAskedStep(H: HashFn, s: Loose, act: LooseAct)
    requires WaitersAsked(s) && |s.lead.chain| < TWO64 && |s.fol.chain| < TWO64
    ensures WaitersAsked(LooseStep(H, s, act))
  {
    hide Deliver, LinkStatus;
    match act
    case LeaderGrows(_) =>
    case LeaderAnnounces(_) =>
    case FollowerAnnounces(_) =>
    case Greets(_) =>
    case DeliverToFollower(m, env) =>
      WaitingMeansAsked(H, s.fol.node, s.fol.chain, m, env);
    case DeliverToLeader(m, env) =>
      WaitingMeansAsked(H, s.lead.node, s.lead.chain, m, env);
  }

  /** Through any run with any failing calls: a node whose request was never sent does not wait for an answer. */
  lemma {:induction false} WaitersAskedOverRuns(H: HashFn, s: Loose, acts: seq<LooseAct>)
    requires WaitersAsked(s)
    ensures WaitersAsked(LooseRun(H, s, acts))
    decreases |acts|
  {
    hide LooseStep, WaitersAsked;
    if acts != [] && |s.lead.chain| < TWO64 && |s.fol.chain| < TWO64 {
      WaitersAskedStep(H, s, acts[0]);
      WaitersAskedOverRuns(H, LooseStep(H, s, acts[0]), acts[1..]);
    }
  }

  function LooseRun(H: HashFn, s: Loose, acts: seq<LooseAct>): Loose
    decreases |acts|
  {
    if acts == [] || |s.lead.chain| >= TWO64 || |s.fol.chain| >= TWO64 then s
    else LooseRun(H, LooseStep(H, s, acts[0]), acts[1..])
  }

  /** The follower's store stays a prefix of the leader's, and the leader never asks, through loss, repetition,
      reordering and failing calls on either side. */
  lemma {:induction false} PrefixOverLooseRuns(H: HashFn, s: Loose, acts: seq<LooseAct>)
    requires LooseInv(H, s) && |s.lead.chain| + |acts| + 1 < TWO64
    ensures LooseInv(H, LooseRun(H, s, acts))
    ensures LooseRun(H, s, acts).fol.chain <= LooseRun(H, s, acts).lead.chain
    ensures forall m :: m in LooseRun(H, s, acts).sentToFol ==> !m.GetSegments?
    decreases |acts|
  {
    hide LooseStep;
    if acts != [] {
      LooseStepKeeps(H, s, acts[0]);
      PrefixOverLooseRuns(H, LooseStep(H, s, acts[0]), acts[1..]);
    }
  }
}
