/** Machine types, fixed-size byte strings and status codes shared by every layer. */
module Base {

  type byte = x: int | 0 <= x < 0x100
  type bytes = seq<byte>

  const TWO63: nat := 0x8000_0000_0000_0000
  const TWO64: nat := 0x1_0000_0000_0000_0000

  type u64 = x: int | 0 <= x < 0x1_0000_0000_0000_0000

  /** 32-byte hashes and public keys; 64-byte signatures. */
  type Bytes32 = b: bytes | |b| == 32 witness seq(32, _ => 0)
  type Bytes64 = b: bytes | |b| == 64 witness seq(64, _ => 0)

  function Zeros(n: nat): (z: bytes)
    ensures |z| == n && forall i :: 0 <= i < n ==> z[i] == 0
  { if n == 0 then [] else Zeros(n - 1) + [0] }

  const ZERO32: Bytes32 := Zeros(32)

  /** The hash is a parameter of everything built on it: results hold for every total function
      to 32-byte values, and nothing assumes that it is injective. */
  type HashFn = bytes -> Bytes32

  /** Two distinct inputs, one out of each given set, with the same digest. */
  ghost predicate CollisionBetween(H: HashFn, xs: set<bytes>, ys: set<bytes>) {
    exists x, y :: x in xs && y in ys && x != y && H(x) == H(y)
  }

  datatype Option<+T> = None | Some(value: T) {
    predicate IsFailure() { None? }
    function PropagateFailure<U>(): Option<U>
      requires None?
    { None }
    function Extract(): T
      requires Some?
    { value }
  }

  datatype Status =
    | Ok
    | InvalidArgument
    | Format
    | NotFound
    | IoError
    | OutOfMemory
    | Unsupported
    | CryptoError
    | Internal

  function Min(a: int, b: int): int { if a <= b then a else b }

  /** The byte string e occurs in s at position p. */
  predicate At(s: bytes, p: nat, e: bytes) {
    p + |e| <= |s| && s[p..p + |e|] == e
  }

  lemma AtSplit(s: bytes, p: nat, a: bytes, b: bytes)
    requires At(s, p, a + b)
    ensures At(s, p, a) && At(s, p + |a|, b)
  {
    assert s[p..p + |a|] == (a + b)[..|a|];
    assert s[p + |a|..p + |a| + |b|] == (a + b)[|a|..];
  }

  lemma QuotientIs(i: nat, d: nat, q: nat, rest: nat)
    requires d > 0 && rest < d && i == d * q + rest
    ensures i / d == q
  {
    var t := i / d - q;
    assert d * t == rest - i % d;
    OnlyZeroMultiple(d, t);
  }

  lemma OnlyZeroMultiple(d: int, t: int)
    requires -d < d * t < d
    ensures t == 0
  { }
}
