/** Merkle root, proofs and proof checking with a duplicated last node on odd levels
    (src/model/merkle.c). */
module Merkle {
  import opened Base

  // ---------------------------------------------------------------- levels

  function Leaves(H: HashFn, records: seq<bytes>): (ls: seq<Bytes32>)
    ensures |ls| == |records| && forall i :: 0 <= i < |records| ==> ls[i] == H(records[i])
  { seq(|records|, i requires 0 <= i < |records| => H(records[i])) }

  function Join(a: bytes, b: bytes): bytes { a + b }

  /** The 64 bytes hashed for parent i: two neighbours, or the last node twice. */
  function PairBytes(level: seq<Bytes32>, i: nat): bytes
    requires 2 * i < |level|
  { Join(level[2 * i], level[if 2 * i + 1 < |level| then 2 * i + 1 else 2 * i]) }

  function Parents(H: HashFn, level: seq<Bytes32>): (ps: seq<Bytes32>)
    ensures |ps| == (|level| + 1) / 2
    ensures forall i :: 0 <= i < |ps| ==> ps[i] == H(PairBytes(level, i))
  { seq<Bytes32>((|level| + 1) / 2, i requires 0 <= i < (|level| + 1) / 2 => H(PairBytes(level, i))) }

  function Root(H: HashFn, level: seq<Bytes32>): Bytes32
    requires level != []
    decreases |level|
  { if |level| == 1 then level[0] else Root(H, Parents(H, level)) }

  function MerkleRoot(H: HashFn, records: seq<bytes>): Bytes32
  { if records == [] then ZERO32 else Root(H, Leaves(H, records)) }

  /** Number of levels above the leaves. */
  function Height(n: nat): nat
    requires n > 0
  { if n == 1 then 0 else 1 + Height((n + 1) / 2) }

  function Pow2(n: nat): (r: nat)
    ensures r >= 1
  { if n == 0 then 1 else 2 * Pow2(n - 1) }

  /** The height is the logarithm of n to base 2, rounded up. */
  lemma {:induction false} HeightIsLog(n: nat)
    requires n > 0
    ensures n <= Pow2(Height(n)) && (n > 1 ==> Pow2(Height(n) - 1) < n)
  {
    if n > 1 {
      HeightIsLog((n + 1) / 2);
      if n > 2 { assert Pow2(Height(n) - 1) == 2 * Pow2(Height(n) - 2); }
    }
  }

  // ---------------------------------------------------------------- the tree, top down

  /** Reference definition, top down and in plain concatenation: a tree of height h over at most 2^h records, split
      at 2^(h-1); a subtree with no right half is paired with itself. */
  function Tree(H: HashFn, records: seq<bytes>, h: nat): Bytes32
    requires 0 < |records| <= Pow2(h)
    decreases h
  {
    if h == 0 then H(records[0]) else
    var m := Pow2(h - 1);
    if |records| <= m then
      var both: bytes := Tree(H, records, h - 1);
      H(both + both)
    else
      var left: bytes := Tree(H, records[..m], h - 1);
      var right: bytes := Tree(H, records[m..], h - 1);
      H(left + right)
  }

  /** The same over the hashes of the records. */
  function Subtree(H: HashFn, leaves: seq<Bytes32>, h: nat): Bytes32
    requires 0 < |leaves| <= Pow2(h)
    decreases h
  {
    if h == 0 then leaves[0] else
    var m := Pow2(h - 1);
    if |leaves| <= m then
      var both: bytes := Subtree(H, leaves, h - 1);
      H(both + both)
    else
      var left: bytes := Subtree(H, leaves[..m], h - 1);
      var right: bytes := Subtree(H, leaves[m..], h - 1);
      H(left + right)
  }

  lemma {:induction false} TreeIsSubtree(H: HashFn, records: seq<bytes>, h: nat)
    requires 0 < |records| <= Pow2(h)
    ensures Tree(H, records, h) == Subtree(H, Leaves(H, records), h)
    decreases h
  {
    if h > 0 {
      var m := Pow2(h - 1);
      if |records| <= m {
        TreeIsSubtree(H, records, h - 1);
      } else {
        TreeIsSubtree(H, records[..m], h - 1);
        TreeIsSubtree(H, records[m..], h - 1);
        assert Leaves(H, records[..m]) == Leaves(H, records)[..m];
        assert Leaves(H, records[m..]) == Leaves(H, records)[m..];
      }
    }
  }

  lemma ParentsSplit(H: HashFn, level: seq<Bytes32>, m: nat)
    requires 2 * m < |level|
    ensures Parents(H, level)[..m] == Parents(H, level[..2 * m])
    ensures Parents(H, level)[m..] == Parents(H, level[2 * m..])
  {
    forall i | 0 <= i < m ensures PairBytes(level, i) == PairBytes(level[..2 * m], i) { }
    forall i | 0 <= i < (|level| + 1) / 2 - m ensures PairBytes(level, m + i) == PairBytes(level[2 * m..], i) { }
  }

  lemma {:induction false} SubtreeOfParents(H: HashFn, level: seq<Bytes32>, h: nat)
    requires h > 0 && 0 < |level| <= Pow2(h)
    ensures |Parents(H, level)| <= Pow2(h - 1) && Subtree(H, level, h) == Subtree(H, Parents(H, level), h - 1)
    decreases h
  {
    hide PairBytes, Subtree, Parents;
    var ps := Parents(H, level);
    if h == 1 {
      SubtreeOfPair(H, level);
    } else {
      var m := Pow2(h - 2);
      assert Pow2(h) == 2 * Pow2(h - 1) && Pow2(h - 1) == 2 * m;
      SubtreeUnfold(H, level, h);
      SubtreeUnfold(H, ps, h - 1);
      if |level| <= 2 * m {
        SubtreeOfParents(H, level, h - 1);
      } else {
        ParentsSplit(H, level, m);
        SubtreeOfParents(H, level[..2 * m], h - 1);
        SubtreeOfParents(H, level[2 * m..], h - 1);
      }
    }
  }

  lemma SubtreeUnfold(H: HashFn, leaves: seq<Bytes32>, h: nat)
    requires h > 0 && 0 < |leaves| <= Pow2(h)
    ensures var m := Pow2(h - 1);
            Subtree(H, leaves, h) ==
              if |leaves| <= m then H(Join(Subtree(H, leaves, h - 1), Subtree(H, leaves, h - 1)))
              else H(Join(Subtree(H, leaves[..m], h - 1), Subtree(H, leaves[m..], h - 1)))
  { }

  lemma SubtreeOfPair(H: HashFn, level: seq<Bytes32>)
    requires 0 < |level| <= Pow2(1)
    ensures |Parents(H, level)| <= Pow2(0) && Subtree(H, level, 1) == Subtree(H, Parents(H, level), 0)
  {
    hide PairBytes;
    assert Pow2(1) == 2 * Pow2(0) && Parents(H, level)[0] == H(PairBytes(level, 0));
    PairOfFew(level);
    if |level| == 2 { assert level[..1][0] == level[0] && level[1..][0] == level[1]; }
  }

  lemma PairOfFew(level: seq<Bytes32>)
    requires 1 <= |level| <= 2
    ensures PairBytes(level, 0) == Join(level[0], level[|level| - 1])
  { }

  /** Replacing each level by its parents computes the top-down tree. */
  lemma {:induction false} RootIsTree(H: HashFn, level: seq<Bytes32>)
    requires level != []
    ensures |level| <= Pow2(Height(|level|)) && Root(H, level) == Subtree(H, level, Height(|level|))
    decreases |level|
  {
    HeightIsLog(|level|);
    if |level| > 1 {
      RootIsTree(H, Parents(H, level));
      SubtreeOfParents(H, level, Height(|level|));
    }
  }

  /** The root of a list of records is the reference tree over them, zero for no records. */
  lemma MerkleIsTree(H: HashFn, records: seq<bytes>)
    ensures records == [] ==> MerkleRoot(H, records) == ZERO32
    ensures records != [] ==>
              |records| <= Pow2(Height(|records|)) && MerkleRoot(H, records) == Tree(H, records, Height(|records|))
  {
    hide Root, Subtree, Tree;
    if records != [] {
      RootIsTree(H, Leaves(H, records));
      TreeIsSubtree(H, records, Height(|records|));
    }
  }

  /** Which bytes are hashed on the way up: left node before right node, on every level and on every proof step. */
  lemma Sides(level: seq<Bytes32>, i: nat, cur: Bytes32, sibling: Bytes32)
    requires 2 * i < |level|
    ensures var p := PairBytes(level, i);
            |p| == 64 && p[..32] == level[2 * i] && p[32..] == level[if 2 * i + 1 < |level| then 2 * i + 1 else 2 * i]
    ensures var l := StepBytes(cur, sibling, true); |l| == 64 && l[..32] == sibling && l[32..] == cur
    ensures var r := StepBytes(cur, sibling, false); |r| == 64 && r[..32] == cur && r[32..] == sibling
  { }

  // ---------------------------------------------------------------- binding

  ghost function PairInputs(level: seq<Bytes32>): set<bytes>
  { set i | 0 <= i < (|level| + 1) / 2 :: PairBytes(level, i) }

  /** Every byte string hashed above a level on the way to the root. */
  ghost function TreeInputs(H: HashFn, level: seq<Bytes32>): set<bytes>
    requires level != []
    decreases |level|
  { if |level| == 1 then {} else PairInputs(level) + TreeInputs(H, Parents(H, level)) }

  /** Every byte string hashed for the root of these records. */
  ghost function RootInputs(H: HashFn, records: seq<bytes>): set<bytes> {
    (set r | r in records) + if records == [] then {} else TreeInputs(H, Leaves(H, records))
  }

  lemma PairsDetermineLevel(a: seq<Bytes32>, b: seq<Bytes32>)
    requires |a| == |b| && forall i :: 0 <= i < (|a| + 1) / 2 ==> PairBytes(a, i) == PairBytes(b, i)
    ensures a == b
  {
    forall k | 0 <= k < |a| ensures a[k] == b[k] {
      var p, q := PairBytes(a, k / 2), PairBytes(b, k / 2);
      assert p[..32] == q[..32] && p[32..] == q[32..];
      assert p[..32] == a[2 * (k / 2)] && q[..32] == b[2 * (k / 2)];
      if k % 2 == 1 { assert p[32..] == a[k] && q[32..] == b[k]; }
    }
  }

  lemma {:induction false} LevelBinding(H: HashFn, a: seq<Bytes32>, b: seq<Bytes32>)
    requires |a| == |b| > 0 && Root(H, a) == Root(H, b)
    ensures a == b || CollisionBetween(H, TreeInputs(H, a), TreeInputs(H, b))
    decreases |a|
  {
    hide PairBytes;
    if |a| > 1 {
      var pa, pb := Parents(H, a), Parents(H, b);
      LevelBinding(H, pa, pb);
      if pa == pb {
        if i :| 0 <= i < |pa| && PairBytes(a, i) != PairBytes(b, i) {
          assert PairBytes(a, i) in TreeInputs(H, a) && PairBytes(b, i) in TreeInputs(H, b);
          assert H(PairBytes(a, i)) == pa[i] == pb[i] == H(PairBytes(b, i));
        } else {
          PairsDetermineLevel(a, b);
        }
      }
    }
  }

  /** Lists of equal length with equal roots are equal, or hashing them ran into a collision. */
  lemma RootBinding(H: HashFn, r: seq<bytes>, r': seq<bytes>)
    requires |r| == |r'| && MerkleRoot(H, r) == MerkleRoot(H, r')
    ensures r == r' || CollisionBetween(H, RootInputs(H, r), RootInputs(H, r'))
  {
    if r != [] {
      hide Root, TreeInputs;
      LevelBinding(H, Leaves(H, r), Leaves(H, r'));
      if Leaves(H, r) == Leaves(H, r') {
        if i :| 0 <= i < |r| && r[i] != r'[i] {
          assert H(r[i]) == Leaves(H, r)[i] == H(r'[i]);
        }
      }
    }
  }

  /** Why the length matters, on every odd level: appending a copy of the last record is invisible. */
  lemma OddDuplicate(H: HashFn, records: seq<bytes>)
    requires |records| >= 3 && |records| % 2 == 1
    ensures MerkleRoot(H, records + [records[|records| - 1]]) == MerkleRoot(H, records)
  {
    var a := Leaves(H, records);
    var b := Leaves(H, records + [records[|records| - 1]]);
    forall i | 0 <= i < (|a| + 1) / 2 ensures PairBytes(a, i) == PairBytes(b, i) { }
    assert Parents(H, a) == Parents(H, b);
  }

  /** Height h of a tree all of whose leaves are d. */
  function Tower(H: HashFn, d: Bytes32, h: nat): Bytes32
  { if h == 0 then d else var t := Tower(H, d, h - 1); H(Join(t, t)) }

  function Copies<T>(x: T, n: nat): (s: seq<T>)
    ensures |s| == n && forall i :: 0 <= i < n ==> s[i] == x
  { seq(n, _ => x) }

  lemma {:induction false} TowerSplit(H: HashFn, d: Bytes32, a: nat, b: nat)
    ensures Tower(H, Tower(H, d, a), b) == Tower(H, d, a + b)
  { if b != 0 { TowerSplit(H, d, a, b - 1); } }

  lemma {:induction false} RootOfCopies(H: HashFn, level: seq<Bytes32>, d: Bytes32)
    requires level != [] && forall i :: 0 <= i < |level| ==> level[i] == d
    ensures Root(H, level) == Tower(H, d, Height(|level|))
    decreases |level|
  {
    if |level| > 1 {
      RootOfCopies(H, Parents(H, level), H(Join(d, d)));
      TowerSplit(H, d, 1, Height(|level|) - 1);
      assert Tower(H, d, 1) == H(Join(d, d));
    }
  }

  lemma TallerSharesRoot(H: HashFn, n: nat, m: nat, x: bytes) returns (y: bytes)
    requires 0 < n && 0 < m && Height(n) <= Height(m)
    ensures MerkleRoot(H, Copies(y, n)) == MerkleRoot(H, Copies(x, m))
  {
    hide Root, Tower, Height;
    var d := H(x);
    RootOfCopies(H, Leaves(H, Copies(x, m)), d);
    var k := Height(m) - Height(n);
    y := x;
    if k > 0 {
      y := Join(Tower(H, d, k - 1), Tower(H, d, k - 1));
      TowerTop(H, d, k);
      TowerSplit(H, d, k, Height(n));
    }
    RootOfCopies(H, Leaves(H, Copies(y, n)), H(y));
  }

  lemma TowerTop(H: HashFn, d: Bytes32, k: nat)
    requires k > 0
    ensures Tower(H, d, k) == H(Join(Tower(H, d, k - 1), Tower(H, d, k - 1)))
  { }

  /** Lists of any two different lengths can share a root, whatever the hash: equal length is exactly
      what RootBinding needs. */
  lemma DifferentLengthsShareRoots(H: HashFn, n: nat, m: nat)
    requires 0 < n && 0 < m && n != m
    ensures exists a: seq<bytes>, b: seq<bytes> :: |a| == n && |b| == m && MerkleRoot(H, a) == MerkleRoot(H, b)
  {
    hide MerkleRoot;
    if Height(n) <= Height(m) {
      var y := TallerSharesRoot(H, n, m, []);
      assert MerkleRoot(H, Copies(y, n)) == MerkleRoot(H, Copies([], m));
    } else {
      var y := TallerSharesRoot(H, m, n, []);
      assert MerkleRoot(H, Copies([], n)) == MerkleRoot(H, Copies(y, m));
    }
  }

  // ---------------------------------------------------------------- proofs

  /** One sibling per level, leaf to root; isLeft tells the side it stands on. */
  datatype Proof = Proof(siblings: seq<Bytes32>, isLeft: seq<bool>)

  function StepBytes(cur: Bytes32, sibling: Bytes32, left: bool): bytes
  { if left then Join(sibling, cur) else Join(cur, sibling) }

  /** What checking a proof computes, starting from cur. */
  function Fold(H: HashFn, cur: Bytes32, siblings: seq<Bytes32>, isLeft: seq<bool>): Bytes32
    requires |siblings| == |isLeft|
    decreases |siblings|
  {
    if siblings == [] then cur
    else Fold(H, H(StepBytes(cur, siblings[0], isLeft[0])), siblings[1..], isLeft[1..])
  }

  /** Every byte string hashed by that computation. */
  ghost function FoldInputs(H: HashFn, cur: Bytes32, siblings: seq<Bytes32>, isLeft: seq<bool>): set<bytes>
    requires |siblings| == |isLeft|
    decreases |siblings|
  {
    if siblings == [] then {}
    else var b := StepBytes(cur, siblings[0], isLeft[0]);
         {b} + FoldInputs(H, H(b), siblings[1..], isLeft[1..])
  }

  /** The sibling of a node: its neighbour, or itself at the end of an odd level. */
  function Sibling(idx: nat, count: nat): (j: nat)
    requires idx < count
    ensures j < count
  { if idx % 2 == 1 then idx - 1 else if idx + 1 < count then idx + 1 else idx }

  function Siblings(H: HashFn, level: seq<Bytes32>, idx: nat): (r: seq<Bytes32>)
    requires idx < |level|
    ensures |r| == Height(|level|)
    decreases |level|
  {
    if |level| == 1 then []
    else [level[Sibling(idx, |level|)]] + Siblings(H, Parents(H, level), idx / 2)
  }

  /** The h low binary digits of i, lowest first. */
  function Digits(i: nat, h: nat): (r: seq<bool>)
    ensures |r| == h
  { if h == 0 then [] else [i % 2 == 1] + Digits(i / 2, h - 1) }

  lemma {:induction false} DigitsAt(i: nat, h: nat, k: nat)
    requires k < h
    ensures Digits(i, h)[k] == (i / Pow2(k) % 2 == 1)
  {
    if k != 0 {
      DigitsAt(i / 2, h - 1, k - 1);
      DivDiv(i, Pow2(k - 1));
      assert Digits(i, h)[k] == Digits(i / 2, h - 1)[k - 1];
    }
  }

  lemma DivDiv(i: nat, w: nat)
    requires w > 0
    ensures i / 2 / w == i / (2 * w)
  {
    var q, r := i / 2 / w, i / 2 % w;
    assert i / 2 == q * w + r;
    var rest := i - 2 * w * q;
    assert 0 <= rest < 2 * w;
    assert i == (2 * w) * q + rest;
    QuotientIs(i, 2 * w, q, rest);
  }

  function BuiltProof(H: HashFn, records: seq<bytes>, index: nat): Proof
    requires index < |records|
  { Proof(Siblings(H, Leaves(H, records), index), Digits(index, Height(|records|))) }

  /** The status of checking a proof; the index is only compared with n. */
  function CheckProof(H: HashFn, record: bytes, index: nat, n: nat, proof: Proof, root: Bytes32): Status
    requires |proof.siblings| == |proof.isLeft|
  {
    if n == 0 || index >= n then InvalidArgument
    else if |proof.siblings| != Height(n) then Format
    else if Fold(H, H(record), proof.siblings, proof.isLeft) != root then Format
    else Ok
  }

  /** Which refusal has which code. */
  lemma ProofCodes(H: HashFn, record: bytes, index: nat, n: nat, proof: Proof, root: Bytes32)
    requires |proof.siblings| == |proof.isLeft|
    ensures CheckProof(H, record, index, n, proof, root) == InvalidArgument <==> index >= n
    ensures index < n && |proof.siblings| != Height(n) ==> CheckProof(H, record, index, n, proof, root) == Format
  { hide Fold; }

  lemma {:induction false} FoldReachesRoot(H: HashFn, level: seq<Bytes32>, idx: nat)
    requires idx < |level|
    ensures Fold(H, level[idx], Siblings(H, level, idx), Digits(idx, Height(|level|))) == Root(H, level)
    decreases |level|
  {
    if |level| > 1 {
      var ps := Parents(H, level);
      var sibs, bits := Siblings(H, level, idx), Digits(idx, Height(|level|));
      assert sibs[1..] == Siblings(H, ps, idx / 2) && bits[1..] == Digits(idx / 2, Height(|ps|));
      assert StepBytes(level[idx], sibs[0], bits[0]) == PairBytes(level, idx / 2);
      FoldReachesRoot(H, ps, idx / 2);
    }
  }

  /** Completeness: every built proof has ceil(log2 n) levels and is accepted. */
  lemma ProofComplete(H: HashFn, records: seq<bytes>, index: nat)
    requires index < |records|
    ensures var p := BuiltProof(H, records, index); var n := |records|;
            && |p.siblings| == |p.isLeft| == Height(n)
            && n <= Pow2(|p.siblings|) && (n > 1 ==> Pow2(|p.siblings| - 1) < n)
            && (forall k :: 0 <= k < |p.isLeft| ==> p.isLeft[k] == (index / Pow2(k) % 2 == 1))
            && CheckProof(H, records[index], index, n, p, MerkleRoot(H, records)) == Ok
  {
    hide Root, Fold, Siblings;
    FoldReachesRoot(H, Leaves(H, records), index);
    HeightIsLog(|records|);
    var h := Height(|records|);
    forall k | 0 <= k < h ensures Digits(index, h)[k] == (index / Pow2(k) % 2 == 1) { DigitsAt(index, h, k); }
  }

  /** The leaf a path of sides leads to from the root; a right turn past the end of a level stays. */
  function Landing(n: nat, isLeft: seq<bool>): (j: nat)
    requires n > 0 && |isLeft| == Height(n)
    ensures j < n
    decreases n
  {
    if n == 1 then 0 else
    var up := Landing((n + 1) / 2, isLeft[1..]);
    if isLeft[0] && 2 * up + 1 < n then 2 * up + 1 else 2 * up
  }

  /** The sides are the binary digits of index, except that the last node of an odd level may go either way. */
  predicate LeadsTo(n: nat, index: nat, isLeft: seq<bool>)
    requires index < n && |isLeft| == Height(n)
    decreases n
  {
    n == 1 ||
    ((isLeft[0] == (index % 2 == 1) || (index % 2 == 0 && index == n - 1))
     && LeadsTo((n + 1) / 2, index / 2, isLeft[1..]))
  }

  lemma {:induction false} LandingExact(n: nat, index: nat, isLeft: seq<bool>)
    requires index < n && |isLeft| == Height(n)
    ensures Landing(n, isLeft) == index <==> LeadsTo(n, index, isLeft)
    decreases n
  { if n > 1 { LandingExact((n + 1) / 2, index / 2, isLeft[1..]); } }

  lemma {:induction false} LandingOfDigits(n: nat, index: nat)
    requires index < n
    ensures Landing(n, Digits(index, Height(n))) == index
    decreases n
  {
    if n > 1 {
      LandingOfDigits((n + 1) / 2, index / 2);
      assert Digits(index, Height(n))[1..] == Digits(index / 2, Height((n + 1) / 2));
    }
  }

  lemma StepIsPair(level: seq<Bytes32>, up: nat, cur: Bytes32, sibling: Bytes32, left: bool)
    requires 2 * up < |level| && StepBytes(cur, sibling, left) == PairBytes(level, up)
    ensures cur == level[if left && 2 * up + 1 < |level| then 2 * up + 1 else 2 * up]
  {
    var p := PairBytes(level, up);
    assert p[..32] == level[2 * up];
    if left { assert p[32..] == cur; } else { assert p[..32] == cur; }
  }

  lemma {:induction false} FoldSound(H: HashFn, level: seq<Bytes32>, cur: Bytes32,
                                   siblings: seq<Bytes32>, isLeft: seq<bool>)
    requires level != [] && |siblings| == |isLeft| == Height(|level|)
    requires Fold(H, cur, siblings, isLeft) == Root(H, level)
    ensures cur == level[Landing(|level|, isLeft)]
            || CollisionBetween(H, FoldInputs(H, cur, siblings, isLeft), TreeInputs(H, level))
    decreases |level|
  {
    hide PairBytes, StepBytes;
    if |level| > 1 {
      var ps := Parents(H, level);
      var b := StepBytes(cur, siblings[0], isLeft[0]);
      FoldSound(H, ps, H(b), siblings[1..], isLeft[1..]);
      var up := Landing(|ps|, isLeft[1..]);
      if H(b) == ps[up] {
        var q := PairBytes(level, up);
        if b == q {
          StepIsPair(level, up, cur, siblings[0], isLeft[0]);
        } else {
          assert b in FoldInputs(H, cur, siblings, isLeft) && q in TreeInputs(H, level) && H(b) == H(q);
        }
      }
    }
  }

  /** Soundness: accepted bytes are the record its sides lead to, or checking them collided with the tree.
      Sides that lead to index make it the record at index. */
  lemma ProofSound(H: HashFn, records: seq<bytes>, record: bytes, index: nat, proof: Proof)
    requires |proof.siblings| == |proof.isLeft|
    requires CheckProof(H, record, index, |records|, proof, MerkleRoot(H, records)) == Ok
    ensures var found := {record} + FoldInputs(H, H(record), proof.siblings, proof.isLeft);
            && (record == records[Landing(|records|, proof.isLeft)]
                || CollisionBetween(H, found, RootInputs(H, records)))
            && (LeadsTo(|records|, index, proof.isLeft) ==>
                  record == records[index] || CollisionBetween(H, found, RootInputs(H, records)))
  {
    hide Root, Fold, TreeInputs, FoldInputs, Landing, LeadsTo;
    var ls := Leaves(H, records);
    FoldSound(H, ls, H(record), proof.siblings, proof.isLeft);
    LandingExact(|records|, index, proof.isLeft);
    var j := Landing(|records|, proof.isLeft);
    if H(record) == ls[j] && record != records[j] {
      assert H(record) == H(records[j]) && records[j] in RootInputs(H, records);
    }
  }

  lemma LandingPair(level: seq<Bytes32>, up: nat, left: bool)
    requires 2 * up < |level|
    ensures var j := if left && 2 * up + 1 < |level| then 2 * up + 1 else 2 * up;
            StepBytes(level[j], level[Sibling(j, |level|)], left) == PairBytes(level, up)
  { }

  /** The leaf that sides lead to, with its own siblings, folds to the root, also through turns past an end. */
  lemma {:induction false} FoldFromLanding(H: HashFn, level: seq<Bytes32>, isLeft: seq<bool>)
    requires level != [] && |isLeft| == Height(|level|)
    ensures var j := Landing(|level|, isLeft); Fold(H, level[j], Siblings(H, level, j), isLeft) == Root(H, level)
    decreases |level|
  {
    if |level| > 1 {
      var ps := Parents(H, level);
      var j := Landing(|level|, isLeft);
      var sibs := Siblings(H, level, j);
      assert j / 2 == Landing(|ps|, isLeft[1..]) && sibs[1..] == Siblings(H, ps, j / 2);
      LandingPair(level, Landing(|ps|, isLeft[1..]), isLeft[0]);
      hide StepBytes, PairBytes;
      FoldFromLanding(H, ps, isLeft[1..]);
    }
  }

  /** The condition is exact: for all other sides, whatever the hash, there are a tree and bytes other than its
      record at index that are accepted for index, and for every other index in range as well. */
  lemma IndexNotBound(H: HashFn, n: nat, index: nat, isLeft: seq<bool>)
    returns (records: seq<bytes>, record: bytes, siblings: seq<Bytes32>)
    requires index < n && |isLeft| == Height(n) && !LeadsTo(n, index, isLeft)
    ensures |records| == n && |siblings| == |isLeft| && record != records[index]
    ensures forall i :: 0 <= i < n ==>
              CheckProof(H, record, i, n, Proof(siblings, isLeft), MerkleRoot(H, records)) == Ok
  {
    hide LeadsTo, Landing, Root, Fold, Siblings;
    LandingExact(n, index, isLeft);
    var j := Landing(n, isLeft);
    records := seq(n, i => if i == index then [0] else []);
    record := [];
    assert records[j] == record && records[index] == [0];
    var ls := Leaves(H, records);
    siblings := Siblings(H, ls, j);
    FoldFromLanding(H, ls, isLeft);
  }

  // ---------------------------------------------------------------- the code

  /** The most leaves for which a level of 32-byte hashes has a 64-bit size. */
  const MAX_LEAVES: nat := 0x7ff_ffff_ffff_ffff

  lemma MaxLeavesExact()
    ensures 32 * MAX_LEAVES < TWO64 <= 32 * (MAX_LEAVES + 1)
  { }

  method HashLeaves(H: HashFn, records: seq<bytes>) returns (level: array<Bytes32>)
    ensures fresh(level) && level[..] == Leaves(H, records)
  {
    level := new Bytes32[|records|](_ => ZERO32);
    for i := 0 to |records|
      invariant forall k :: 0 <= k < i ==> level[k] == H(records[k])
    {
      level[i] := H(records[i]);
    }
  }

  /** One pass of the level loop, into a new buffer. */
  method HashParents(H: HashFn, level: array<Bytes32>) returns (next: array<Bytes32>)
    requires level.Length > 0
    ensures fresh(next) && next[..] == Parents(H, level[..])
  {
    var n := (level.Length + 1) / 2;
    next := new Bytes32[n](_ => ZERO32);
    for i := 0 to n
      invariant forall k :: 0 <= k < i ==> next[k] == H(PairBytes(level[..], k))
    {
      var left := level[2 * i];
      var right := if 2 * i + 1 < level.Length then level[2 * i + 1] else left;
      next[i] := H(Join(left, right));
    }
  }

  method ComputeRoot(H: HashFn, records: seq<bytes>) returns (st: Status, root: Bytes32)
    ensures st == if |records| > MAX_LEAVES then Format else Ok
    ensures st == Ok ==> root == MerkleRoot(H, records)
  {
    st, root := Ok, ZERO32;
    if |records| == 0 { return; }
    if |records| > MAX_LEAVES { return Format, root; }
    var level := HashLeaves(H, records);
    while level.Length > 1
      invariant level.Length > 0 && Root(H, level[..]) == MerkleRoot(H, records)
      decreases level.Length
    {
      level := HashParents(H, level);
    }
    root := level[0];
  }

  method LevelCount(n: nat) returns (h: nat)
    requires n > 0
    ensures h == Height(n)
  {
    h := 0;
    var count := n;
    while count > 1
      invariant count > 0 && h + Height(count) == Height(n)
    {
      h := h + 1;
      count := (count + 1) / 2;
    }
  }

  /** What has been recorded so far, completed from this level and index, is the proof. */
  ghost predicate Pending(H: HashFn, level: seq<Bytes32>, idx: nat,
                          siblings: seq<Bytes32>, isLeft: seq<bool>, proof: Proof) {
    && idx < |level|
    && siblings + Siblings(H, level, idx) == proof.siblings
    && isLeft + Digits(idx, Height(|level|)) == proof.isLeft
  }

  lemma PendingStep(H: HashFn, level: seq<Bytes32>, idx: nat, siblings: seq<Bytes32>, isLeft: seq<bool>, proof: Proof)
    requires Pending(H, level, idx, siblings, isLeft, proof)
    ensures |level| == 1 ==> proof == Proof(siblings, isLeft)
    ensures |level| > 1 ==> Pending(H, Parents(H, level), idx / 2,
                                    siblings + [level[Sibling(idx, |level|)]], isLeft + [idx % 2 == 1], proof)
  {
    if |level| > 1 {
      var x, bit := level[Sibling(idx, |level|)], idx % 2 == 1;
      var above, bits := Siblings(H, Parents(H, level), idx / 2), Digits(idx / 2, Height((|level| + 1) / 2));
      assert siblings + ([x] + above) == (siblings + [x]) + above;
      assert isLeft + ([bit] + bits) == (isLeft + [bit]) + bits;
    }
  }

  /** Fills the next slot of both arrays from the current level. */
  method RecordSibling(level: array<Bytes32>, idx: nat, siblings: array<Bytes32>, isLeft: array<bool>, slot: nat)
    requires idx < level.Length && slot < siblings.Length == isLeft.Length && level != siblings
    modifies siblings, isLeft
    ensures siblings[..slot + 1] == old(siblings[..slot]) + [level[Sibling(idx, level.Length)]]
    ensures isLeft[..slot + 1] == old(isLeft[..slot]) + [idx % 2 == 1]
  {
    var sib := idx - 1;
    if idx % 2 == 0 {
      sib := if idx + 1 < level.Length then idx + 1 else idx;
      isLeft[slot] := false;
    } else {
      isLeft[slot] := true;
    }
    siblings[slot] := level[sib];
  }

  method BuildProof(H: HashFn, records: seq<bytes>, index: nat) returns (st: Status, r: Proof)
    ensures st == if index >= |records| then InvalidArgument else if |records| > MAX_LEAVES then Format else Ok
    ensures st == Ok ==> r == BuiltProof(H, records, index)
  {
    r := Proof([], []);
    if |records| == 0 || index >= |records| { return InvalidArgument, r; }
    if |records| > MAX_LEAVES { return Format, r; }
    var cap := LevelCount(|records|);
    var siblings := new Bytes32[cap](_ => ZERO32);
    var isLeft := new bool[cap](_ => false);
    var level := HashLeaves(H, records);
    var idx: nat, filled: nat := index, 0;
    ghost var proof := BuiltProof(H, records, index);
    assert Pending(H, level[..], idx, [], [], proof);
    hide Pending, Parents, Leaves;
    while level.Length > 1
      invariant level != siblings && 0 <= idx < level.Length && filled + Height(level.Length) == cap
      invariant Pending(H, level[..], idx, siblings[..filled], isLeft[..filled], proof)
      decreases level.Length
    {
      PendingStep(H, level[..], idx, siblings[..filled], isLeft[..filled], proof);
      RecordSibling(level, idx, siblings, isLeft, filled);
      level := HashParents(H, level);
      idx, filled := idx / 2, filled + 1;
    }
    PendingStep(H, level[..], idx, siblings[..filled], isLeft[..filled], proof);
    st, r := Ok, Proof(siblings[..filled], isLeft[..filled]);
  }

  method VerifyProof(H: HashFn, record: bytes, index: nat, n: nat, proof: Proof, root: Bytes32) returns (st: Status)
    requires |proof.siblings| == |proof.isLeft|
    ensures st == CheckProof(H, record, index, n, proof, root)
  {
    if n == 0 || index >= n { return InvalidArgument; }
    var need := LevelCount(n);
    if |proof.siblings| != need { return Format; }
    var cur: Bytes32 := H(record);
    for i := 0 to |proof.siblings|
      invariant Fold(H, cur, proof.siblings[i..], proof.isLeft[i..]) == Fold(H, H(record), proof.siblings, proof.isLeft)
    {
      cur := if proof.isLeft[i] then H(Join(proof.siblings[i], cur)) else H(Join(cur, proof.siblings[i]));
    }
    if cur != root { return Format; }
    st := Ok;
  }
}
