/** The log store: one file per segment, published by rename and found again by scanning names
    (src/store/store_log.c). A directory is a map from file names to contents. */
module LogStore {
  import opened Base
  import opened SegmentFormat
  import opened Chain

  type Dir = map<string, bytes>

  // ---------------------------------------------------------------- file names

  function DigitChar(d: nat): char
    requires d < 10
  { '0' + d as char }

  predicate IsDigit(c: char) { '0' <= c <= '9' }

  function DigitValue(c: char): nat
    requires IsDigit(c)
  { (c - '0') as int }

  /** The low width decimal digits of n, zero-padded. */
  function Decimal(n: nat, width: nat): (s: string)
    ensures |s| == width && forall i :: 0 <= i < width ==> IsDigit(s[i])
  { if width == 0 then "" else Decimal(n / 10, width - 1) + [DigitChar(n % 10)] }

  function DecimalValue(s: string): nat
    requires forall i :: 0 <= i < |s| ==> IsDigit(s[i])
  { if s == "" then 0 else 10 * DecimalValue(s[..|s| - 1]) + DigitValue(s[|s| - 1]) }

  function SegFilename(no: u64): (s: string)
    ensures |s| == 28
  { "seg_" + Decimal(no, 20) + ".vcs" }

  function TmpFilename(no: u64): (s: string)
    ensures |s| == 28
  { "seg_" + Decimal(no, 20) + ".tmp" }

  predicate IsSpace(c: char) { c == ' ' || '\t' <= c <= '\r' }

  function SkipSpace(s: string): string
  { if s != "" && IsSpace(s[0]) then SkipSpace(s[1..]) else s }

  /** strtoull in base 10 when it must use up the whole text: leading blanks and a sign are allowed,
      values out of range saturate and a minus sign negates modulo 2^64. */
  function StrToUll(text: string): Option<u64> {
    var s := SkipSpace(text);
    var negative := s != "" && s[0] == '-';
    var digits := if s != "" && (s[0] == '-' || s[0] == '+') then s[1..] else s;
    if digits == "" || exists i :: 0 <= i < |digits| && !IsDigit(digits[i]) then None
    else
      var v := DecimalValue(digits);
      Some(if v >= TWO64 then TWO64 - 1 else if negative then (TWO64 - v) % TWO64 else v)
  }

  function IsSegName(name: string): Option<u64> {
    if |name| != 28 || name[..4] != "seg_" || name[24..] != ".vcs" then None else StrToUll(name[4..24])
  }

  function Pow10(n: nat): (r: nat)
    ensures r >= 1
  { if n == 0 then 1 else 10 * Pow10(n - 1) }

  lemma {:induction false} DecimalMeaning(n: nat, width: nat)
    requires n < Pow10(width)
    ensures DecimalValue(Decimal(n, width)) == n
  {
    if width != 0 {
      DecimalMeaning(n / 10, width - 1);
      assert Decimal(n, width)[..width - 1] == Decimal(n / 10, width - 1);
    }
  }

  lemma TwentyDigits()
    ensures Pow10(20) > TWO64
  {
    assert Pow10(5) == 10 * Pow10(4) == 100 * Pow10(3) == 1000 * Pow10(2) == 10000 * Pow10(1) == 100000;
    assert Pow10(10) == 10 * Pow10(9) == 100 * Pow10(8) == 1000 * Pow10(7) == 10000 * Pow10(6) == 100000 * Pow10(5);
    assert Pow10(15) == 10 * Pow10(14) == 100 * Pow10(13) == 1000 * Pow10(12)
           == 10000 * Pow10(11) == 100000 * Pow10(10);
    assert Pow10(20) == 10 * Pow10(19) == 100 * Pow10(18) == 1000 * Pow10(17)
           == 10000 * Pow10(16) == 100000 * Pow10(15);
  }

  /** The name test inverts the naming of segments, for every 64-bit number. */
  lemma NameRoundTrip(no: u64)
    ensures IsSegName(SegFilename(no)) == Some(no)
  {
    hide StrToUll, Decimal;
    var name := SegFilename(no);
    assert name[4..24] == Decimal(no, 20) && name[..4] == "seg_" && name[24..] == ".vcs";
    DigitsReadBack(no);
  }

  /** Twenty digits, the most significant first. */
  lemma {:induction false} DecimalAt(n: nat, width: nat, k: nat)
    requires k < width
    ensures Decimal(n, width)[width - 1 - k] == DigitChar(n / Pow10(k) % 10)
  {
    if k > 0 {
      DecimalAt(n / 10, width - 1, k - 1);
      DivPow10(n, k - 1);
      assert Decimal(n, width)[width - 1 - k] == Decimal(n / 10, width - 1)[width - 1 - k];
    }
  }

  lemma DivPow10(n: nat, k: nat)
    ensures n / 10 / Pow10(k) == n / Pow10(k + 1)
  {
    var w, q := Pow10(k), n / 10 / Pow10(k);
    var rest := n - 10 * w * q;
    assert n / 10 == q * w + n / 10 % w;
    assert 0 <= rest < 10 * w && n == (10 * w) * q + rest;
    QuotientIs(n, 10 * w, q, rest);
  }

  /** The name of a segment: a prefix, its number in twenty digits, and a suffix. */
  lemma NameLayout(no: u64, k: nat)
    requires k < 20
    ensures var name := SegFilename(no);
            |name| == 28 && name[..4] == "seg_" && name[24..] == ".vcs" && name[23 - k] == DigitChar(no / Pow10(k) % 10)
  {
    DecimalAt(no, 20, k);
    hide Decimal, Pow10;
    var name := SegFilename(no);
    assert name[4..24] == Decimal(no, 20) && name[23 - k] == Decimal(no, 20)[19 - k];
  }

  lemma DigitsReadBack(no: u64)
    ensures StrToUll(Decimal(no, 20)) == Some(no)
  {
    TwentyDigits();
    DecimalMeaning(no, 20);
    hide Pow10, DecimalValue, Decimal;
    var d := Decimal(no, 20);
    assert IsDigit(d[0]) && SkipSpace(d) == d;
  }

  lemma TmpIsNoSegment(no: u64)
    ensures IsSegName(TmpFilename(no)) == None
  {
    var name := TmpFilename(no);
    assert name[24..] == ".tmp" && name[24..][1] != ".vcs"[1];
  }

  lemma NamesDistinct(a: u64, b: u64)
    ensures SegFilename(a) == SegFilename(b) ==> a == b
    ensures SegFilename(a) != TmpFilename(b)
  {
    hide SegFilename, TmpFilename, IsSegName;
    NameRoundTrip(a);
    NameRoundTrip(b);
    TmpIsNoSegment(b);
  }

  // ---------------------------------------------------------------- directories

  ghost predicate OwnName(name: string, n: nat) {
    || (exists k: u64 :: 1 <= k <= n && name == SegFilename(k))
    || (exists k: u64 :: name == TmpFilename(k))
  }

  /** The directory holds exactly these segments, beside leftovers of unfinished writes. */
  ghost predicate Holds(files: Dir, chain: seq<bytes>) {
    && |chain| < TWO64
    && (forall k: u64 :: 1 <= k <= |chain| ==> SegFilename(k) in files && files[SegFilename(k)] == chain[k - 1])
    && (forall name :: name in files ==> OwnName(name, |chain|))
  }

  lemma SegmentNameBounds(files: Dir, chain: seq<bytes>, name: string)
    requires Holds(files, chain) && name in files
    ensures IsSegName(name).Some? ==>
              1 <= IsSegName(name).value <= |chain| && name == SegFilename(IsSegName(name).value)
  {
    hide SegFilename, TmpFilename, IsSegName;
    assert OwnName(name, |chain|);
    if k: u64 :| 1 <= k <= |chain| && name == SegFilename(k) {
      NameRoundTrip(k);
    } else {
      var k: u64 :| name == TmpFilename(k);
      TmpIsNoSegment(k);
    }
  }

  /** A directory holds at most one sequence of segments. */
  lemma HoldsOne(files: Dir, a: seq<bytes>, b: seq<bytes>)
    requires Holds(files, a) && Holds(files, b)
    ensures a == b
  {
    hide SegFilename, TmpFilename, IsSegName;
    HoldsLength(files, a, b);
    HoldsLength(files, b, a);
    forall i | 0 <= i < |a| ensures a[i] == b[i] { assert files[SegFilename(i + 1)] == a[i]; }
  }

  lemma HoldsLength(files: Dir, a: seq<bytes>, b: seq<bytes>)
    requires Holds(files, a) && Holds(files, b)
    ensures |a| <= |b|
  {
    hide SegFilename, TmpFilename, IsSegName;
    if |a| > 0 {
      assert SegFilename(|a|) in files;
      SegmentNameBounds(files, b, SegFilename(|a|));
      NameRoundTrip(|a|);
    }
  }

  // ---------------------------------------------------------------- states passed through by an append

  /** Writing the temporary file, up to any byte of it, or removing it, leaves the old segments. */
  lemma TmpKeepsOld(files: Dir, chain: seq<bytes>, no: u64, content: bytes)
    requires Holds(files, chain)
    ensures Holds(files[TmpFilename(no) := content], chain)
    ensures Holds(files - {TmpFilename(no)}, chain)
  {
    hide SegFilename, TmpFilename;
    forall k: u64 ensures SegFilename(k) != TmpFilename(no) { NamesDistinct(k, no); }
  }

  /** The rename publishes the new segment at once. */
  lemma RenameExtends(files: Dir, chain: seq<bytes>, s: bytes)
    requires Holds(files, chain) && |chain| + 1 < TWO64
    ensures Holds(Published(files, |chain| + 1, s), chain + [s])
  {
    hide SegFilename, TmpFilename;
    var no: u64 := |chain| + 1;
    var after := (files - {TmpFilename(no)})[SegFilename(no) := s];
    forall k: u64 | 1 <= k <= no ensures SegFilename(k) in after && after[SegFilename(k)] == (chain + [s])[k - 1] {
      NamesDistinct(k, no);
    }
    forall name | name in after ensures OwnName(name, no) {
      if name != SegFilename(no) { assert OwnName(name, |chain|); }
    }
  }

  /** The directory after a successful append. */
  function Published(files: Dir, no: u64, s: bytes): Dir { (files - {TmpFilename(no)})[SegFilename(no) := s] }

  /** What reaches the file when closing it may lose the rest. */
  function Survives(s: bytes, lost: Option<nat>): bytes
  { if lost.Some? && lost.value < |s| then s[..lost.value] else s }

  /** Every directory an append of s can leave behind, wherever it stops. */
  ghost predicate Passed(files: Dir, no: u64, s: bytes, d: Dir) {
    || d == files
    || (exists k :: 0 <= k <= |s| && d == files[TmpFilename(no) := s[..k]])
    || d == files - {TmpFilename(no)}
    || d == Published(files, no, s)
  }

  lemma StepsPass(files: Dir, no: u64, s: bytes)
    ensures Passed(files, no, s, files) && Passed(files, no, s, files - {TmpFilename(no)})
    ensures Passed(files, no, s, Published(files, no, s))
    ensures forall k :: 0 <= k <= |s| ==> Passed(files, no, s, files[TmpFilename(no) := s[..k]])
  { hide SegFilename, TmpFilename; }

  /** Crash atomicity: whatever is left holds the old segments or all of them and the new one. */
  lemma CrashAtomic(files: Dir, chain: seq<bytes>, s: bytes, d: Dir)
    requires Holds(files, chain) && |chain| + 1 < TWO64 && Passed(files, |chain| + 1, s, d)
    ensures Holds(d, chain) || Holds(d, chain + [s])
  {
    hide Holds, SegFilename, TmpFilename;
    var no: u64 := |chain| + 1;
    RenameExtends(files, chain, s);
    TmpKeepsOld(files, chain, no, []);
    if k :| 0 <= k <= |s| && d == files[TmpFilename(no) := s[..k]] { TmpKeepsOld(files, chain, no, s[..k]); }
  }

  // ---------------------------------------------------------------- crashes, one after the other

  /** A segment offered to a store that was opened before and is opened again after it: the directory that is found
      then, and whether the append had returned OK by that time. */
  datatype Try = Try(s: bytes, left: Dir, acked: bool)

  /** What one try can leave of a directory that holds chain. */
  ghost predicate Leaves(files: Dir, chain: seq<bytes>, t: Try)
    requires |chain| + 1 < TWO64
  {
    if LogAppendStatus(chain, t.s) != Ok then t.left == files && !t.acked
    else Passed(files, |chain| + 1, t.s, t.left) && (t.acked ==> t.left == Published(files, |chain| + 1, t.s))
  }

  /** The tries happened one after the other, each on the chain that the directory before it held. */
  ghost predicate Happened(files: Dir, chain: seq<bytes>, tries: seq<Try>)
    decreases |tries|
  {
    tries == [] ||
    (|chain| + 1 < TWO64 && Leaves(files, chain, tries[0])
     && forall c :: Holds(tries[0].left, c) ==> Happened(tries[0].left, c, tries[1..]))
  }

  function Final(files: Dir, tries: seq<Try>): Dir { if tries == [] then files else tries[|tries| - 1].left }

  /** More consists of the tried segments in order: all that were acknowledged, and perhaps some others. */
  ghost predicate Between(tries: seq<Try>, more: seq<bytes>)
    decreases |tries|
  {
    if tries == [] then more == [] else
    || (more != [] && more[0] == tries[0].s && Between(tries[1..], more[1..]))
    || (!tries[0].acked && Between(tries[1..], more))
  }

  /** One try leaves the old chain, or it and the new segment; if acknowledged, the latter. */
  lemma TryLeaves(files: Dir, chain: seq<bytes>, t: Try)
    requires Holds(files, chain) && |chain| + 1 < TWO64 && Leaves(files, chain, t)
    ensures (Holds(t.left, chain) && !t.acked) || Holds(t.left, chain + [t.s])
  {
    hide Holds, Passed, LogAppendStatus, SegFilename, TmpFilename;
    if LogAppendStatus(chain, t.s) == Ok {
      CrashAtomic(files, chain, t.s, t.left);
      RenameExtends(files, chain, t.s);
    }
  }

  /** However many appends are cut short, at whatever points, by crashes and reopenings: the directory holds the
      old chain followed by every acknowledged segment, in order, and nothing that was not offered. */
  lemma {:induction false} CrashesLoseNothing(files: Dir, chain: seq<bytes>, tries: seq<Try>) returns (more: seq<bytes>)
    requires Holds(files, chain) && Happened(files, chain, tries)
    ensures Between(tries, more) && Holds(Final(files, tries), chain + more)
    decreases |tries|
  {
    hide Holds, Leaves;
    if tries == [] {
      assert chain + [] == chain;
      return [];
    }
    var t, rest := tries[0], tries[1..];
    TryLeaves(files, chain, t);
    assert Final(t.left, rest) == Final(files, tries);
    if Holds(t.left, chain + [t.s]) {
      var tail := CrashesLoseNothing(t.left, chain + [t.s], rest);
      more := [t.s] + tail;
      assert more[1..] == tail && chain + more == chain + [t.s] + tail;
    } else {
      more := CrashesLoseNothing(t.left, chain, rest);
    }
  }

  // ---------------------------------------------------------------- the code

  /** Which system call of an append fails, if any. */
  datatype Io = Succeeds | OpenFails | WriteShort | FsyncFails | RenameFails

  /** The greatest segment number among the names, in whatever order they are listed. */
  method ScanTip(files: Dir) returns (tip: u64)
    ensures forall name :: name in files && IsSegName(name).Some? ==> IsSegName(name).value <= tip
    ensures tip == 0 || exists name :: name in files && IsSegName(name) == Some(tip)
  {
    hide IsSegName;
    tip := 0;
    var left := files.Keys;
    while left != {}
      invariant left <= files.Keys
      invariant forall name :: name in files && name !in left && IsSegName(name).Some? ==> IsSegName(name).value <= tip
      invariant tip == 0 || exists name :: name in files && IsSegName(name) == Some(tip)
      decreases left
    {
      var name :| name in left;
      var no := IsSegName(name);
      if no.Some? && no.value > tip { tip := no.value; }
      left := left - {name};
    }
  }

  lemma ScannedTip(files: Dir, chain: seq<bytes>, tip: u64)
    requires Holds(files, chain)
    requires forall name :: name in files && IsSegName(name).Some? ==> IsSegName(name).value <= tip
    requires tip == 0 || exists name :: name in files && IsSegName(name) == Some(tip)
    ensures tip == |chain|
  {
    hide IsSegName, SegFilename, TmpFilename;
    if chain != [] {
      assert SegFilename(|chain|) in files;
      NameRoundTrip(|chain|);
    }
    if tip != 0 {
      var name :| name in files && IsSegName(name) == Some(tip);
      SegmentNameBounds(files, chain, name);
    }
  }

  class Store {
    const H: HashFn
    var files: Dir
    var hasTip: bool
    var tipNo: u64
    var tipHash: Bytes32
    ghost var chain: seq<bytes>

    /** The directory holds the chain and the tip fields describe its last segment. */
    ghost predicate Valid()
      reads this
    { Holds(files, chain) && Tip() == TipOf(H, chain) }

    function Tip(): Option<(nat, Bytes32)>
      reads this
    { if hasTip then var no: nat := tipNo; Some((no, tipHash)) else None }

    constructor (H: HashFn, files: Dir, tip: Option<(u64, Bytes32)>, ghost chain: seq<bytes>)
      ensures this.H == H && this.files == files && this.chain == chain
      ensures hasTip == tip.Some? && (hasTip ==> tipNo == tip.value.0 && tipHash == tip.value.1)
    {
      this.H, this.files, this.hasTip, this.chain := H, files, tip.Some?, chain;
      this.tipNo := if tip.Some? then tip.value.0 else 0;
      this.tipHash := if tip.Some? then tip.value.1 else ZERO32;
    }

    /** The number must be the next one; the previous hash is not looked at. */
    method CheckNumber(s: bytes) returns (st: Status, no: u64)
      requires Valid() && |chain| + 1 < TWO64
      ensures st == LogAppendStatus(chain, s)
      ensures st == Ok ==> no == |chain| + 1
    {
      hide Holds, PeekNo;
      no := 0;
      var peeked := PeekSegmentNo(s);
      if peeked.None? { return Format, no; }
      var expected := if hasTip then tipNo + 1 else 1;
      if peeked.value != expected { return InvalidArgument, no; }
      return Ok, expected;
    }

    /** trail lists every directory between two system calls, torn writes included. The result of closing the file
        is ignored: when closing loses all but the first lost bytes, those are published and the call returns OK,
        with the hash of the whole as its tip. */
    method Append(s: bytes, io: Io, lost: Option<nat>)
      returns (st: Status, no: u64, hash: Bytes32, ghost trail: seq<Dir>)
      requires Valid() && |chain| + 1 < TWO64
      modifies this
      ensures st == if LogAppendStatus(old(chain), s) != Ok then LogAppendStatus(old(chain), s)
                    else if io == Succeeds then Ok else IoError
      ensures chain == if st == Ok then old(chain) + [Survives(s, lost)] else old(chain)
      ensures Holds(files, chain) && Tip() == if st == Ok then Some((|chain|, H(s))) else old(Tip())
      ensures Survives(s, lost) == s || st != Ok ==> Valid()
      ensures st == Ok ==> Some((no as nat, hash)) == Tip()
      ensures st != Ok ==> files == if LogAppendStatus(old(chain), s) != Ok || io == OpenFails then old(files)
                                    else old(files) - {TmpFilename(|old(chain)| + 1)}
      ensures st == Ok ==> files == Published(old(files), |old(chain)| + 1, Survives(s, lost))
      ensures trail != [] && trail[0] == old(files) && trail[|trail| - 1] == files
      ensures forall i :: 0 <= i < |trail| ==> Passed(old(files), |old(chain)| + 1, Survives(s, lost), trail[i])
    {
      hide SegFilename, TmpFilename, Holds, LogAppendStatus, Survives, Passed, Published;
      no, hash, trail := 0, ZERO32, [files];
      StepsPass(files, |chain| + 1, Survives(s, lost));
      var expected: u64;
      st, expected := CheckNumber(s);
      if st != Ok { return; }
      hash := H(s);
      ghost var before := files;
      var kept := Survives(s, lost);
      st, trail := Publish(expected, kept, io);
      TmpKeepsOld(before, chain, expected, kept);
      RenameExtends(before, chain, kept);
      if st != Ok { return; }
      hasTip, tipNo, tipHash := true, expected, hash;
      chain := chain + [kept];
      no := expected;
    }

    /** Temporary file, then rename; a failure after opening removes the temporary file again. */
    method Publish(no: u64, kept: bytes, io: Io) returns (st: Status, ghost trail: seq<Dir>)
      modifies this`files
      ensures st == if io == Succeeds then Ok else IoError
      ensures files == if io == Succeeds then Published(old(files), no, kept)
                       else if io == OpenFails then old(files) else old(files) - {TmpFilename(no)}
      ensures trail != [] && trail[0] == old(files) && trail[|trail| - 1] == files
      ensures forall i :: 0 <= i < |trail| ==> Passed(old(files), no, kept, trail[i])
    {
      hide SegFilename, TmpFilename, Passed;
      ghost var before := files;
      StepsPass(before, no, kept);
      trail := [files];
      var tmp, final := TmpFilename(no), SegFilename(no);
      if io == OpenFails { return IoError, trail; }
      files := files[tmp := kept];
      trail := trail + seq(|kept| + 1, k requires 0 <= k <= |kept| => before[tmp := kept[..k]]);
      if io != Succeeds {
        files := files - {tmp};
        assert files == before - {tmp};
        return IoError, trail + [files];
      }
      files := (files - {tmp})[final := files[tmp]];
      assert files == (before - {tmp})[final := kept];
      return Ok, trail + [files];
    }

    /** The file of the segment; readable tells whether opening and reading it succeeds when it is there. On a
        valid store that is the segment of that number, and an I/O error for a number the chain does not have. */
    method ReadSegment(no: u64, readable: bool) returns (st: Status, s: bytes)
      ensures st == if readable && SegFilename(no) in files then Ok else IoError
      ensures st == Ok ==> s == files[SegFilename(no)]
      ensures Valid() ==> st == (if readable && 1 <= no <= |chain| then Ok else IoError)
      ensures Valid() && st == Ok ==> s == chain[no - 1]
    {
      hide Holds, SegFilename;
      if Valid() { HeldFiles(files, chain, no); }
      if !readable || SegFilename(no) !in files { return IoError, []; }
      return Ok, files[SegFilename(no)];
    }
  }

  /** A directory that holds a chain has a file for exactly the numbers of the chain, with its segments. */
  lemma HeldFiles(files: Dir, chain: seq<bytes>, no: u64)
    requires Holds(files, chain)
    ensures SegFilename(no) in files <==> 1 <= no <= |chain|
    ensures 1 <= no <= |chain| ==> files[SegFilename(no)] == chain[no - 1]
  {
    hide SegFilename, IsSegName, TmpFilename;
    if SegFilename(no) in files {
      SegmentNameBounds(files, chain, SegFilename(no));
      NameRoundTrip(no);
    }
  }

  lemma LastFile(files: Dir, chain: seq<bytes>)
    requires Holds(files, chain) && chain != []
    ensures SegFilename(|chain|) in files && files[SegFilename(|chain|)] == chain[|chain| - 1]
  { }

  /** Scan on open. On a directory that holds a chain it recovers exactly that chain and its tip. */
  method OpenLog(H: HashFn, files: Dir) returns (st: Status, store: Store)
    ensures fresh(store) && store.H == H && store.files == files
    ensures forall chain :: Holds(files, chain) ==> st == Ok && store.Valid() && store.chain == chain
  {
    hide SegFilename, TmpFilename, IsSegName, Holds;
    var tip := ScanTip(files);
    ghost var c: seq<bytes> := if c :| Holds(files, c) then c else [];
    forall chain | Holds(files, chain) ensures chain == c && tip == |c| {
      HoldsOne(files, c, chain);
      ScannedTip(files, c, tip);
    }
    if tip != 0 && SegFilename(tip) !in files {
      store := new Store(H, files, None, c);
      st := IoError;
      forall chain | Holds(files, chain) ensures false { LastFile(files, chain); }
      return;
    }
    var found: Option<(u64, Bytes32)> := if tip == 0 then None else Some((tip, H(files[SegFilename(tip)])));
    store := new Store(H, files, found, c);
    st := Ok;
    forall chain | Holds(files, chain) ensures store.Valid() { if c != [] { LastFile(files, c); } }
  }

  /** One round in code: open, append, and stop after step cut of the append. What is left is a try in the above
      sense, so rounds follow one another as there. */
  method Round(H: HashFn, files: Dir, s: bytes, io: Io, ghost cut: nat, ghost chain: seq<bytes>)
    returns (st: Status, ghost t: Try)
    requires Holds(files, chain) && |chain| + 1 < TWO64
    ensures st == if LogAppendStatus(chain, s) != Ok then LogAppendStatus(chain, s)
                  else if io == Succeeds then Ok else IoError
    ensures t.s == s && Leaves(files, chain, t) && (t.acked ==> st == Ok)
    ensures (Holds(t.left, chain) && !t.acked) || Holds(t.left, chain + [s])
  {
    hide Holds, SegFilename, TmpFilename, LogAppendStatus, Passed;
    var store;
    st, store := OpenLog(H, files);
    var no, hash;
    ghost var trail;
    st, no, hash, trail := store.Append(s, io, None);
    ghost var left := if cut < |trail| then trail[cut] else store.files;
    t := Try(s, if LogAppendStatus(chain, s) == Ok then left else files, st == Ok && cut >= |trail|);
    TryLeaves(files, chain, t);
  }
}
