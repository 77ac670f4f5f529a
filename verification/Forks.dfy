/** Two nodes whose stores have parted ways, on a channel that loses, repeats and reorders (src/p2p/sync.c):
    neither takes a segment of the other, or two distinct stored segments have the same hash. */
module Forks {
  import opened Base
  import opened Chain
  import opened Wire
  import opened Sync
  import opened ChainSafety
  import opened Replication
  import SegmentFormat

  /** Both chains are verified and differ at position p. */
  ghost predicate Forked(H: HashFn, a: seq<bytes>, b: seq<bytes>, p: nat) {
    && ChainOk(H, false, a) && ChainOk(H, false, b)
    && p < |a| < TWO64 && p < |b| < TWO64 && a[p] != b[p]
  }

  /** If the next segment of b links to the end of a, the stores collide. */
  lemma ForeignLinkCollides(H: HashFn, a: seq<bytes>, b: seq<bytes>, p: nat)
    requires Forked(H, a, b, p) && |a| < |b|
    requires LinkStatus(H, false, b[|a|], |a| + 1, PrevHash(H, a, |a|)) == Ok
    ensures CollisionBetween(H, Members(a), Members(b))
  {
    hide ChainOk, LinkStatus, SegmentFormat.Decode, SegmentFormat.PeekNo, SegmentFormat.PeekNoPrev,
         SegmentFormat.VerifyStatus;
    var n := |a|;
    LinkAt(H, false, b, n);
    LinkFacts(H, false, b[n], n + 1, PrevHash(H, a, n));
    LinkFacts(H, false, b[n], n + 1, PrevHash(H, b, n));
    assert H(a[n - 1]) == H(b[n - 1]);
    ChainPrefix(H, false, b, n);
    var front := b[..n];
    assert front[n - 1] == b[n - 1] && front[p] == b[p];
    TipBindsHistory(H, false, false, a, front);
    assert Members(front) <= Members(b);
  }

  /** The segments among the messages come out of that chain. */
  predicate SegmentsOf(H: HashFn, m: Msg, chain: seq<bytes>)
    requires |chain| < TWO64
  { m.SegmentData? ==> 1 <= m.no <= |chain| && m == SegmentMsg(H, chain, m.no) }

  /** A node on a that gets any message of a node on b keeps a, or the stores collide; and it sends segments of
      its own only. */
  lemma ForeignDelivery(H: HashFn, n: Node, a: seq<bytes>, b: seq<bytes>, p: nat, m: Msg, env: Env)
    requires Forked(H, a, b, p) && |a| + 1 < TWO64 && CachedPast(H, n.local, a) && SegmentsOf(H, m, b)
    ensures var r := Deliver(H, n, a, m, env);
            || CollisionBetween(H, Members(a), Members(b))
            || (r.chain == a && CachedPast(H, r.node.local, a)
                && forall i :: 0 <= i < |r.sent| ==> SegmentsOf(H, r.sent[i], a))
  {
    hide ChainOk, ApplyCheck, LogAppendStatus, LinkStatus, CollisionBetween,
         SegmentFormat.VerifyStatus, SegmentFormat.Decode;
    if m.SegmentData? && ApplyCheck(H, n, m.no, m.hash, m.data) == Ok && LogAppendStatus(a, m.data) == Ok {
      AppliedSegmentLinks(H, n, a, m.no, m.hash, m.data);
      AppliedNumber(H, n, a, m.no, m.hash, m.data);
      ForeignLinkCollides(H, a, b, p);
    }
  }

  lemma AppliedNumber(H: HashFn, n: Node, a: seq<bytes>, no: u64, hash: Bytes32, data: bytes)
    requires ApplyCheck(H, n, no, hash, data) == Ok && LogAppendStatus(a, data) == Ok
    ensures no == |a| + 1
  {
    hide SegmentFormat.Decode, SegmentFormat.PeekNo, SegmentFormat.PeekNoPrev, SegmentFormat.VerifyStatus;
    DecodesWhenVerified(H, data);
    SegmentFormat.PeekAgrees(data);
  }

  // ---------------------------------------------------------------- whole runs

  ghost predicate ForkInv(H: HashFn, s: Loose, p: nat) {
    && Forked(H, s.lead.chain, s.fol.chain, p)
    && CachedPast(H, s.lead.node.local, s.lead.chain) && CachedPast(H, s.fol.node.local, s.fol.chain)
    && (forall m :: m in s.sentToFol ==> SegmentsOf(H, m, s.lead.chain))
    && (forall m :: m in s.sentToLead ==> SegmentsOf(H, m, s.fol.chain))
  }

  ghost predicate Collide(H: HashFn, s: Loose) { CollisionBetween(H, Members(s.lead.chain), Members(s.fol.chain)) }

  /** What the leader's chain becomes if it hears nobody. */
  function Alone(H: HashFn, chain: seq<bytes>, act: LooseAct): seq<bytes> {
    if act.LeaderGrows? && LinkStatus(H, false, act.segment, |chain| + 1, PrevHash(H, chain, |chain|)) == Ok
    then chain + [act.segment] else chain
  }

  function AloneAll(H: HashFn, chain: seq<bytes>, acts: seq<LooseAct>): seq<bytes>
    decreases |acts|
  { if acts == [] then chain else AloneAll(H, Alone(H, chain, acts[0]), acts[1..]) }

  lemma CollisionFlips(H: HashFn, xs: set<bytes>, ys: set<bytes>)
    requires CollisionBetween(H, xs, ys)
    ensures CollisionBetween(H, ys, xs)
  { }

  lemma ForkedFlips(H: HashFn, a: seq<bytes>, b: seq<bytes>, p: nat)
    requires Forked(H, a, b, p)
    ensures Forked(H, b, a, p)
  { hide ChainOk; }

  lemma FollowerHearsFork(H: HashFn, s: Loose, p: nat, m: Msg, env: Env)
    requires ForkInv(H, s, p) && |s.fol.chain| + 1 < TWO64
    ensures var s' := LooseStep(H, s, DeliverToFollower(m, env));
            Collide(H, s) || (ForkInv(H, s', p) && s'.fol.chain == s.fol.chain && s'.lead == s.lead)
  {
    hide Deliver, Forked, CollisionBetween, CachedPast;
    if m in s.sentToFol {
      ForkedFlips(H, s.lead.chain, s.fol.chain, p);
      ForkBounds(H, s.lead.chain, s.fol.chain, p);
      ForeignDelivery(H, s.fol.node, s.fol.chain, s.lead.chain, p, m, env);
      if CollisionBetween(H, Members(s.fol.chain), Members(s.lead.chain)) {
        CollisionFlips(H, Members(s.fol.chain), Members(s.lead.chain));
      }
    }
  }

  lemma LeaderHearsFork(H: HashFn, s: Loose, p: nat, m: Msg, env: Env)
    requires ForkInv(H, s, p) && |s.lead.chain| + 1 < TWO64 && |s.fol.chain| < TWO64
    ensures var s' := LooseStep(H, s, DeliverToLeader(m, env));
            Collide(H, s) || (ForkInv(H, s', p) && s'.lead.chain == s.lead.chain && s'.fol == s.fol)
  {
    hide Deliver, Forked, CollisionBetween, CachedPast;
    if m in s.sentToLead {
      ForkBounds(H, s.lead.chain, s.fol.chain, p);
      ForeignDelivery(H, s.lead.node, s.lead.chain, s.fol.chain, p, m, env);
    }
  }

  lemma ForkBounds(H: HashFn, a: seq<bytes>, b: seq<bytes>, p: nat)
    requires Forked(H, a, b, p)
    ensures 0 < |a| < TWO64 && 0 < |b| < TWO64
  { hide ChainOk; }

  lemma LeaderGrowsFork(H: HashFn, s: Loose, p: nat, seg: bytes)
    requires ForkInv(H, s, p) && |s.lead.chain| + 1 < TWO64 && |s.fol.chain| < TWO64
    ensures var s' := LooseStep(H, s, LeaderGrows(seg));
            ForkInv(H, s', p) && s'.fol == s.fol && s'.lead.chain == Alone(H, s.lead.chain, LeaderGrows(seg))
  {
    hide ChainOk, LinkStatus;
    var a := s.lead.chain;
    if LinkStatus(H, false, seg, |a| + 1, PrevHash(H, a, |a|)) == Ok {
      ChainExtend(H, false, a, seg);
      CachedStaysPast(H, s.lead.node.local, a, [seg]);
    }
  }

  lemma ForkStep(H: HashFn, s: Loose, p: nat, act: LooseAct)
    requires ForkInv(H, s, p) && |s.lead.chain| + 1 < TWO64 && |s.fol.chain| + 1 < TWO64
    ensures var s' := LooseStep(H, s, act);
            || Collide(H, s)
            || (ForkInv(H, s', p) && s'.fol.chain == s.fol.chain && s'.lead.chain == Alone(H, s.lead.chain, act))
  {
    hide Deliver, Forked, CollisionBetween, LinkStatus;
    ForkBounds(H, s.lead.chain, s.fol.chain, p);
    match act
    case LeaderGrows(seg) => LeaderGrowsFork(H, s, p, seg);
    case LeaderAnnounces(_) => CachedStaysPast(H, None, s.lead.chain, []);
    case FollowerAnnounces(_) => CachedStaysPast(H, None, s.fol.chain, []);
    case Greets(_) =>
    case DeliverToFollower(m, env) => FollowerHearsFork(H, s, p, m, env);
    case DeliverToLeader(m, env) => LeaderHearsFork(H, s, p, m, env);
  }

  /** Deliveries only append, whatever they carry. */
  lemma DeliverAppends(H: HashFn, n: Node, chain: seq<bytes>, m: Msg, env: Env)
    requires |chain| < TWO64
    ensures chain <= Deliver(H, n, chain, m, env).chain
  { hide ApplyCheck, LogAppendStatus; }

  lemma {:induction false} LooseAppends(H: HashFn, s: Loose, acts: seq<LooseAct>)
    ensures s.lead.chain <= LooseRun(H, s, acts).lead.chain && s.fol.chain <= LooseRun(H, s, acts).fol.chain
    decreases |acts|
  {
    hide Deliver, LinkStatus;
    if acts != [] && |s.lead.chain| < TWO64 && |s.fol.chain| < TWO64 {
      if acts[0].DeliverToFollower? { DeliverAppends(H, s.fol.node, s.fol.chain, acts[0].m, acts[0].env); }
      if acts[0].DeliverToLeader? { DeliverAppends(H, s.lead.node, s.lead.chain, acts[0].m, acts[0].env); }
      LooseAppends(H, LooseStep(H, s, acts[0]), acts[1..]);
    }
  }

  lemma CollisionsStay(H: HashFn, s: Loose, s': Loose)
    requires Collide(H, s) && s.lead.chain <= s'.lead.chain && s.fol.chain <= s'.fol.chain
    ensures Collide(H, s')
  {
    assert Members(s.lead.chain) <= Members(s'.lead.chain);
    assert Members(s.fol.chain) <= Members(s'.fol.chain);
  }

  /** However long they talk, whatever is lost, repeated, reordered or fails: the follower's store stays as it is
      and the leader's becomes what it would have become alone, or two of their segments collide. */
  lemma {:induction false} ForksStayApart(H: HashFn, s: Loose, p: nat, acts: seq<LooseAct>)
    requires ForkInv(H, s, p) && |s.lead.chain| + |acts| + 1 < TWO64 && |s.fol.chain| + 1 < TWO64
    ensures var s' := LooseRun(H, s, acts);
            || Collide(H, s')
            || (s'.fol.chain == s.fol.chain && s'.lead.chain == AloneAll(H, s.lead.chain, acts))
    decreases |acts|
  {
    hide ForkInv, LooseStep, Collide, LinkStatus;
    if acts != [] {
      ForkStep(H, s, p, acts[0]);
      if Collide(H, s) {
        LooseAppends(H, s, acts);
        CollisionsStay(H, s, LooseRun(H, s, acts));
      } else {
        ForksStayApart(H, LooseStep(H, s, acts[0]), p, acts[1..]);
      }
    }
  }
}
