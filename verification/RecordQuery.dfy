/** query_records of the SQLite store (src/store/store_sqlite.c): the WHERE clause it builds, what the engine
    may answer, and when that is the filtered scan of the chain. */
module RecordQuery {
  import opened Base
  import opened SegmentFormat
  import opened RecordScan
  import opened RecordIndex
  import RecordFormat

  // ---------------------------------------------------------------- filters

  /** Empty text, the zero key, time 0 and limit 0 ask for nothing. */
  datatype Filter = Filter(ns: bytes, schema: bytes, author: Bytes32, timeFrom: u64, timeTo: u64, limit: nat)

  const ANY: Filter := Filter([], [], ZERO32, 0, 0, 0)

  predicate TextWanted(f: Filter, m: RecordFormat.Meta) {
    && (f.ns != [] ==> m.ns == f.ns)
    && (f.schema != [] ==> m.schema == f.schema)
    && (f.author != ZERO32 ==> m.author == f.author)
  }

  /** A time as the chain has it, or as the signed column does. */
  function Time(signed: bool, t: u64): int { if signed then Signed(t) else t }

  predicate TimeWanted(f: Filter, signed: bool, t: u64) {
    && (f.timeFrom != 0 ==> Time(signed, f.timeFrom) <= Time(signed, t))
    && (f.timeTo != 0 ==> Time(signed, t) <= Time(signed, f.timeTo))
  }

  /** What the filter means for a record of the chain (unsigned times), and what it comes to in the table. */
  predicate Wanted(f: Filter, signed: bool, rec: bytes) {
    var r := RecordFormat.Decode(rec);
    r.Some? && TextWanted(f, r.value.meta) && TimeWanted(f, signed, r.value.meta.timestamp)
  }

  function Keep(f: Filter, signed: bool, scan: seq<Entry>): (es: seq<Entry>)
    ensures forall e :: e in es <==> e in scan && Wanted(f, signed, e.rec)
  {
    if scan == [] then [] else
    assert scan == scan[..|scan| - 1] + [scan[|scan| - 1]];
    var last := scan[|scan| - 1];
    Keep(f, signed, scan[..|scan| - 1]) + if Wanted(f, signed, last.rec) then [last] else []
  }

  function Cut<T>(xs: seq<T>, limit: nat): seq<T> { if 0 < limit < |xs| then xs[..limit] else xs }

  /** A limit keeps the first so many, no limit all. */
  lemma CutMeaning<T>(xs: seq<T>, limit: nat)
    ensures Cut(xs, limit) <= xs && |Cut(xs, limit)| == if limit == 0 || |xs| < limit then |xs| else limit
  { }

  lemma {:induction false} KeepOrdered(f: Filter, signed: bool, scan: seq<Entry>)
    requires InOrder(scan)
    ensures InOrder(Keep(f, signed, scan))
  {
    hide Wanted;
    if scan != [] {
      var front := scan[..|scan| - 1];
      KeepOrdered(f, signed, front);
      var kept := Keep(f, signed, front);
      forall a | 0 <= a < |kept|
        ensures Before(kept[a].segNo, kept[a].idx, scan[|scan| - 1].segNo, scan[|scan| - 1].idx)
      {
        assert kept[a] in front;
        var i :| 0 <= i < |front| && front[i] == kept[a];
        assert scan[i] == front[i];
      }
    }
  }

  // ---------------------------------------------------------------- when signed times matter

  /** Comparing as signed values is comparing as unsigned ones exactly for two times on the same side of 2^63. */
  lemma SignedOrder(a: u64, b: u64)
    ensures (Signed(a) <= Signed(b) <==> a <= b) <==> (a < TWO63 <==> b < TWO63)
  { }

  /** One bound is read rightly by times on its own side of 2^63, two bounds on one side by all times; of two
      bounds on different sides, an ascending pair selects nothing and a descending one everything outside. */
  predicate Agree(f: Filter, t: u64) {
    if f.timeFrom == 0 && f.timeTo == 0 then true
    else if f.timeTo == 0 then f.timeFrom < TWO63 <==> t < TWO63
    else if f.timeFrom == 0 then f.timeTo < TWO63 <==> t < TWO63
    else if f.timeFrom < TWO63 <==> f.timeTo < TWO63 then true
    else if f.timeFrom < TWO63 then !(f.timeFrom <= t <= f.timeTo)
    else f.timeTo < t < f.timeFrom
  }

  /** A record that the signed column puts on the wrong side of the filter. */
  predicate Misread(f: Filter, rec: bytes) {
    var r := RecordFormat.Decode(rec);
    r.Some? && TextWanted(f, r.value.meta) && !Agree(f, r.value.meta.timestamp)
  }

  lemma MisreadExact(f: Filter, rec: bytes)
    ensures Misread(f, rec) <==> (Wanted(f, true, rec) <==> !Wanted(f, false, rec))
  {
    hide RecordFormat.Decode;
    var r := RecordFormat.Decode(rec);
    if r.Some? {
      var t := r.value.meta.timestamp;
      if f.timeFrom != 0 { SignedOrder(f.timeFrom, t); }
      if f.timeTo != 0 { SignedOrder(t, f.timeTo); }
    }
  }

  /** Every misread record stands behind as many hits as the limit asks for. */
  ghost predicate Harmless(f: Filter, scan: seq<Entry>) {
    forall i :: 0 <= i < |scan| && Misread(f, scan[i].rec) ==> 0 < f.limit <= |Keep(f, false, scan[..i])|
  }

  /** Two lists, cut at the limit, after one more element for either, both or none of them. */
  lemma CutStep<T>(a: seq<T>, b: seq<T>, e: T, forA: bool, forB: bool, limit: nat)
    requires e !in a && e !in b
    ensures var a', b' := a + (if forA then [e] else []), b + (if forB then [e] else []);
            Cut(a', limit) == Cut(b', limit) <==>
              Cut(a, limit) == Cut(b, limit) && ((forA <==> forB) || 0 < limit <= |b|)
  {
    CutPush(a, e, forA, limit);
    CutPush(b, e, forB, limit);
    var a', b' := a + (if forA then [e] else []), b + (if forB then [e] else []);
    assert forA ==> a'[|a|] == e && e in a';
    assert forB ==> b'[|b|] == e && e in b';
    assert forA == forB && a' == b' ==> a == a'[..|a|] == b'[..|b|] == b;
    assert Cut(a, limit) <= a && Cut(b, limit) <= b;
  }

  lemma CutPush<T>(a: seq<T>, e: T, add: bool, limit: nat)
    ensures var a' := a + (if add then [e] else []);
            Cut(a', limit) == if 0 < limit <= |a| then Cut(a, limit) else a'
  { }

  lemma {:induction false} CutsAgree(f: Filter, scan: seq<Entry>)
    requires InOrder(scan)
    ensures Cut(Keep(f, true, scan), f.limit) == Cut(Keep(f, false, scan), f.limit) <==> Harmless(f, scan)
    decreases |scan|
  {
    hide Wanted, Misread, Cut;
    if scan != [] {
      var n := |scan| - 1;
      var front, e := scan[..n], scan[n];
      CutsAgree(f, front);
      MisreadExact(f, e.rec);
      LastIsNew(scan);
      CutStep(Keep(f, true, front), Keep(f, false, front), e, Wanted(f, true, e.rec), Wanted(f, false, e.rec), f.limit);
      HarmlessStep(f, scan);
    }
  }

  lemma LastIsNew(scan: seq<Entry>)
    requires InOrder(scan) && scan != []
    ensures scan[|scan| - 1] !in scan[..|scan| - 1]
  { }

  lemma HarmlessStep(f: Filter, scan: seq<Entry>)
    requires scan != []
    ensures var n := |scan| - 1;
            Harmless(f, scan) <==>
              Harmless(f, scan[..n]) && (Misread(f, scan[n].rec) ==> 0 < f.limit <= |Keep(f, false, scan[..n])|)
  {
    hide Misread, Keep;
    var n := |scan| - 1;
    assert forall i :: 0 <= i < n ==> scan[..n][..i] == scan[..i] && scan[..n][i] == scan[i];
  }

  // ---------------------------------------------------------------- the statement

  /** One conjunct of the WHERE clause with the value bound to it. */
  datatype Cond =
    | NamespaceIs(text: bytes)
    | SchemaIs(text: bytes)
    | AuthorIs(key: Bytes32)
    | TimeFrom(bound: int)
    | TimeTo(bound: int)

  predicate Meets(c: Cond, row: Row) {
    match c
    case NamespaceIs(t) => row.ns == t
    case SchemaIs(t) => row.schema == t
    case AuthorIs(k) => row.author == k
    case TimeFrom(b) => row.timestamp >= b
    case TimeTo(b) => row.timestamp <= b
  }

  predicate MeetsAll(where: seq<Cond>, row: Row) { forall i :: 0 <= i < |where| ==> Meets(where[i], row) }

  /** What the engine promises of SELECT ... WHERE ... ORDER BY segment_no, idx_in_segment: each matching row
      once and nothing else, no row behind one with a greater key. */
  ghost predicate Selects(table: Table, where: seq<Cond>, ids: seq<Bytes32>) {
    && (forall id :: id in ids <==> id in table && MeetsAll(where, table[id]))
    && (forall a, b :: 0 <= a < b < |ids| ==> ids[a] != ids[b])
    && (forall a, b :: 0 <= a < b < |ids| && ids[a] in table && ids[b] in table ==>
          !Before(table[ids[b]].segNo, table[ids[b]].idx, table[ids[a]].segNo, table[ids[a]].idx))
  }

  /** The same with LIMIT. */
  ghost predicate Answers(table: Table, where: seq<Cond>, limit: nat, ids: seq<Bytes32>) {
    exists all :: Selects(table, where, all) && ids == Cut(all, limit)
  }

  /** The WHERE clause says what the filter comes to in the table. */
  ghost predicate Expresses(where: seq<Cond>, f: Filter) {
    forall row, e: Entry :: IsRow(row, e) ==> (MeetsAll(where, row) <==> Wanted(f, true, e.rec))
  }

  predicate RowWanted(f: Filter, row: Row) {
    && (f.ns != [] ==> row.ns == f.ns)
    && (f.schema != [] ==> row.schema == f.schema)
    && (f.author != ZERO32 ==> row.author == f.author)
    && (f.timeFrom != 0 ==> row.timestamp >= Signed(f.timeFrom))
    && (f.timeTo != 0 ==> row.timestamp <= Signed(f.timeTo))
  }

  lemma RowWantedIsWanted(where: seq<Cond>, f: Filter)
    requires forall row: Row :: MeetsAll(where, row) <==> RowWanted(f, row)
    ensures Expresses(where, f)
  { hide RecordFormat.Decode, MeetsAll; }

  function Clause(asked: bool, c: Cond): seq<Cond> { if asked then [c] else [] }

  /** A conjunct for each field that asks for something. */
  function WhereOf(f: Filter): seq<Cond> {
    Clause(f.ns != [], NamespaceIs(f.ns)) + Clause(f.schema != [], SchemaIs(f.schema))
    + Clause(f.author != ZERO32, AuthorIs(f.author))
    + Clause(f.timeFrom != 0, TimeFrom(Signed(f.timeFrom))) + Clause(f.timeTo != 0, TimeTo(Signed(f.timeTo)))
  }

  lemma WhereExpresses(f: Filter)
    ensures Expresses(WhereOf(f), f)
  {
    hide Expresses;
    forall row: Row ensures MeetsAll(WhereOf(f), row) <==> RowWanted(f, row) {
      hide MeetsAll;
      var w1 := Clause(f.ns != [], NamespaceIs(f.ns));
      var w2 := w1 + Clause(f.schema != [], SchemaIs(f.schema));
      var w3 := w2 + Clause(f.author != ZERO32, AuthorIs(f.author));
      var w4 := w3 + Clause(f.timeFrom != 0, TimeFrom(Signed(f.timeFrom)));
      MeetsNone(row);
      MeetsMore([], w1, f.ns != [], NamespaceIs(f.ns), row);
      MeetsMore(w1, w2, f.schema != [], SchemaIs(f.schema), row);
      MeetsMore(w2, w3, f.author != ZERO32, AuthorIs(f.author), row);
      MeetsMore(w3, w4, f.timeFrom != 0, TimeFrom(Signed(f.timeFrom)), row);
      MeetsMore(w4, WhereOf(f), f.timeTo != 0, TimeTo(Signed(f.timeTo)), row);
    }
    RowWantedIsWanted(WhereOf(f), f);
  }

  lemma MeetsNone(row: Row)
    ensures MeetsAll([], row)
  { }

  lemma MeetsMore(a: seq<Cond>, b: seq<Cond>, added: bool, c: Cond, row: Row)
    requires b == if added then a + [c] else a
    ensures MeetsAll(b, row) <==> MeetsAll(a, row) && (added ==> Meets(c, row))
  { assert added ==> b[|a|] == c && forall i :: 0 <= i < |a| ==> a[i] == b[i]; }

  method BuildWhere(f: Filter) returns (where: seq<Cond>)
    ensures where == WhereOf(f)
  {
    where := [];
    if f.ns != [] { where := where + [NamespaceIs(f.ns)]; }
    if f.schema != [] { where := where + [SchemaIs(f.schema)]; }
    assert where == Clause(f.ns != [], NamespaceIs(f.ns)) + Clause(f.schema != [], SchemaIs(f.schema));
    ghost var texts := where;
    if f.author != ZERO32 { where := where + [AuthorIs(f.author)]; }
    assert where == texts + Clause(f.author != ZERO32, AuthorIs(f.author));
    ghost var keys := where;
    if f.timeFrom != 0 { where := where + [TimeFrom(Signed(f.timeFrom))]; }
    assert where == keys + Clause(f.timeFrom != 0, TimeFrom(Signed(f.timeFrom)));
    if f.timeTo != 0 { where := where + [TimeTo(Signed(f.timeTo))]; }
  }

  // ---------------------------------------------------------------- the one answer

  function Ids(H: HashFn, es: seq<Entry>): (ids: seq<Bytes32>)
    ensures |ids| == |es| && forall i :: 0 <= i < |es| ==> ids[i] == H(es[i].rec)
  { seq<Bytes32>(|es|, i requires 0 <= i < |es| => H(es[i].rec)) }

  ghost predicate Ascending(table: Table, ids: seq<Bytes32>) {
    && (forall a :: 0 <= a < |ids| ==> ids[a] in table)
    && (forall a, b :: 0 <= a < b < |ids| ==>
          Before(table[ids[a]].segNo, table[ids[a]].idx, table[ids[b]].segNo, table[ids[b]].idx))
  }

  /** Ascending lists of the same ids are the same list. */
  lemma {:induction false} AscendingUnique(table: Table, xs: seq<Bytes32>, ys: seq<Bytes32>)
    requires Ascending(table, xs) && Ascending(table, ys)
    requires forall id :: id in xs <==> id in ys
    ensures xs == ys
    decreases |xs|
  {
    assert xs != [] ==> xs[0] in ys;
    assert ys != [] ==> ys[0] in xs;
    if xs != [] {
      SameHead(table, xs, ys);
      SameTailIds(table, xs, ys);
      AscendingUnique(table, xs[1..], ys[1..]);
      assert xs == [xs[0]] + xs[1..] && ys == [ys[0]] + ys[1..];
    }
  }

  lemma SameHead(table: Table, xs: seq<Bytes32>, ys: seq<Bytes32>)
    requires Ascending(table, xs) && Ascending(table, ys) && xs != [] && ys != []
    requires forall id :: id in xs <==> id in ys
    ensures xs[0] == ys[0]
  {
    assert xs[0] in ys && ys[0] in xs;
    var i :| 0 <= i < |ys| && ys[i] == xs[0];
    var j :| 0 <= j < |xs| && xs[j] == ys[0];
  }

  lemma SameTailIds(table: Table, xs: seq<Bytes32>, ys: seq<Bytes32>)
    requires Ascending(table, xs) && Ascending(table, ys) && xs != [] && ys != [] && xs[0] == ys[0]
    requires forall id :: id in xs <==> id in ys
    ensures Ascending(table, xs[1..]) && Ascending(table, ys[1..])
    ensures forall id :: id in xs[1..] <==> id in ys[1..]
  {
    forall id ensures id in xs[1..] <==> id in xs && id != xs[0] { TailIds(table, xs, id); }
    forall id ensures id in ys[1..] <==> id in ys && id != ys[0] { TailIds(table, ys, id); }
  }

  lemma TailIds(table: Table, xs: seq<Bytes32>, id: Bytes32)
    requires Ascending(table, xs) && xs != []
    ensures id in xs[1..] <==> id in xs && id != xs[0]
  {
    if id in xs[1..] {
      var i :| 0 <= i < |xs| - 1 && xs[1..][i] == id;
      assert xs[i + 1] == id
          && Before(table[xs[0]].segNo, table[xs[0]].idx, table[xs[i + 1]].segNo, table[xs[i + 1]].idx);
    }
    if id in xs && id != xs[0] {
      var i :| 0 <= i < |xs| && xs[i] == id;
      assert xs[1..][i - 1] == id;
    }
  }

  /** Rows of an index have distinct keys. */
  lemma KeysDistinct(H: HashFn, table: Table, scan: seq<Entry>, x: Bytes32, y: Bytes32)
    requires IndexOf(H, table, scan) && InOrder(scan) && x in table && y in table && x != y
    ensures Before(table[x].segNo, table[x].idx, table[y].segNo, table[y].idx)
         || Before(table[y].segNo, table[y].idx, table[x].segNo, table[x].idx)
  {
    hide RecordFormat.Decode, IsRow;
    var i :| 0 <= i < |scan| && scan[i] == Entry(table[x].segNo, table[x].idx, table[x].rec);
    var j :| 0 <= j < |scan| && scan[j] == Entry(table[y].segNo, table[y].idx, table[y].rec);
    if i < j { assert Before(scan[i].segNo, scan[i].idx, scan[j].segNo, scan[j].idx); }
    if j < i { assert Before(scan[j].segNo, scan[j].idx, scan[i].segNo, scan[i].idx); }
  }

  lemma SelectedAscend(H: HashFn, table: Table, scan: seq<Entry>, where: seq<Cond>, ids: seq<Bytes32>)
    requires IndexOf(H, table, scan) && InOrder(scan) && Selects(table, where, ids)
    ensures Ascending(table, ids)
  {
    hide IndexOf, InOrder, MeetsAll;
    forall a, b | 0 <= a < b < |ids|
      ensures Before(table[ids[a]].segNo, table[ids[a]].idx, table[ids[b]].segNo, table[ids[b]].idx)
    { KeysDistinct(H, table, scan, ids[a], ids[b]); }
  }

  /** The ids of kept entries: where they stand in the index. */
  lemma KeptRows(H: HashFn, table: Table, scan: seq<Entry>, kept: seq<Entry>)
    requires IndexOf(H, table, scan) && InOrder(kept) && forall e :: e in kept ==> e in scan
    ensures Ascending(table, Ids(H, kept))
    ensures forall i :: 0 <= i < |kept| ==> H(kept[i].rec) in table && IsRow(table[H(kept[i].rec)], kept[i])
  {
    hide RecordFormat.Decode;
    forall i | 0 <= i < |kept| ensures H(kept[i].rec) in table && IsRow(table[H(kept[i].rec)], kept[i]) {
      assert kept[i] in scan;
      var k :| 0 <= k < |scan| && scan[k] == kept[i];
      assert IsRow(table[H(scan[k].rec)], scan[k]);
    }
  }

  /** The ids of the wanted entries are those of the rows that meet the clause. */
  lemma WantedIds(H: HashFn, table: Table, scan: seq<Entry>, f: Filter, where: seq<Cond>, id: Bytes32)
    requires IndexOf(H, table, scan) && Expresses(where, f)
    ensures id in Ids(H, Keep(f, true, scan)) <==> id in table && MeetsAll(where, table[id])
  {
    hide RecordFormat.Decode, MeetsAll, Wanted, IsRow, Keep;
    var kept := Keep(f, true, scan);
    if id in Ids(H, kept) {
      var k :| 0 <= k < |kept| && Ids(H, kept)[k] == id;
      assert kept[k] in scan && Wanted(f, true, kept[k].rec);
      var i :| 0 <= i < |scan| && scan[i] == kept[k];
      assert IsRow(table[H(scan[i].rec)], scan[i]);
    }
    if id in table && MeetsAll(where, table[id]) {
      var e := Entry(table[id].segNo, table[id].idx, table[id].rec);
      var i :| 0 <= i < |scan| && scan[i] == e;
      assert IsRow(table[H(scan[i].rec)], scan[i]);
      assert e in kept;
      var k :| 0 <= k < |kept| && kept[k] == e;
      assert Ids(H, kept)[k] == id;
    }
  }

  /** The scan filtered by the columns is an answer. */
  lemma KeepSelects(H: HashFn, table: Table, scan: seq<Entry>, f: Filter, where: seq<Cond>)
    requires IndexOf(H, table, scan) && InOrder(scan) && Expresses(where, f)
    ensures Selects(table, where, Ids(H, Keep(f, true, scan)))
    ensures Ascending(table, Ids(H, Keep(f, true, scan)))
  {
    hide IndexOf, InOrder, MeetsAll, Wanted, Keep, Expresses;
    var ids := Ids(H, Keep(f, true, scan));
    KeepOrdered(f, true, scan);
    KeptRows(H, table, scan, Keep(f, true, scan));
    forall id ensures id in ids <==> id in table && MeetsAll(where, table[id]) {
      WantedIds(H, table, scan, f, where, id);
    }
  }

  /** Every query has one answer: the chain filtered by signed times, in order, cut at the limit. */
  lemma OneAnswer(H: HashFn, table: Table, scan: seq<Entry>, f: Filter, ids: seq<Bytes32>)
    requires IndexOf(H, table, scan) && InOrder(scan)
    ensures Answers(table, WhereOf(f), f.limit, ids) <==> ids == Ids(H, Cut(Keep(f, true, scan), f.limit))
  {
    WhereExpresses(f);
    hide IndexOf, InOrder, MeetsAll, Wanted, Keep, Expresses, WhereOf;
    var where, kept := WhereOf(f), Ids(H, Keep(f, true, scan));
    KeepSelects(H, table, scan, f, where);
    assert Cut(kept, f.limit) == Ids(H, Cut(Keep(f, true, scan), f.limit));
    if Answers(table, where, f.limit, ids) {
      var all :| Selects(table, where, all) && ids == Cut(all, f.limit);
      SelectedAscend(H, table, scan, where, all);
      AscendingUnique(table, all, kept);
    }
  }

  /** Ids of scanned records stand for the records. */
  lemma IdsInjective(H: HashFn, table: Table, scan: seq<Entry>, xs: seq<Entry>, ys: seq<Entry>)
    requires IndexOf(H, table, scan) && InOrder(xs) && InOrder(ys)
    requires (forall e :: e in xs ==> e in scan) && (forall e :: e in ys ==> e in scan)
    ensures Ids(H, xs) == Ids(H, ys) <==> xs == ys
  {
    hide RecordFormat.Decode, IndexOf;
    KeptRows(H, table, scan, xs);
    KeptRows(H, table, scan, ys);
    if Ids(H, xs) == Ids(H, ys) {
      assert |xs| == |Ids(H, xs)| == |ys|;
      forall i | 0 <= i < |xs| ensures xs[i] == ys[i] {
        assert Ids(H, xs)[i] == Ids(H, ys)[i];
        assert IsRow(table[H(xs[i].rec)], xs[i]) && IsRow(table[H(ys[i].rec)], ys[i]);
      }
    }
  }

  lemma CutOrdered(f: Filter, signed: bool, scan: seq<Entry>)
    requires InOrder(scan)
    ensures var cut := Cut(Keep(f, signed, scan), f.limit); InOrder(cut) && forall e :: e in cut ==> e in scan
  {
    hide Keep, Wanted;
    KeepOrdered(f, signed, scan);
  }

  /** That is the answer the filter means, the chain filtered by unsigned times and cut at the limit, exactly when
      no misread record stands before the limit is reached. */
  lemma QueryIsScan(H: HashFn, table: Table, scan: seq<Entry>, f: Filter)
    requires IndexOf(H, table, scan) && InOrder(scan)
    ensures Answers(table, WhereOf(f), f.limit, Ids(H, Cut(Keep(f, false, scan), f.limit))) <==> Harmless(f, scan)
  {
    hide IndexOf, InOrder, Keep, Wanted, Cut, WhereOf, Answers, Harmless;
    var meant, given := Cut(Keep(f, false, scan), f.limit), Cut(Keep(f, true, scan), f.limit);
    OneAnswer(H, table, scan, f, Ids(H, meant));
    CutOrdered(f, false, scan);
    CutOrdered(f, true, scan);
    IdsInjective(H, table, scan, meant, given);
    CutsAgree(f, scan);
  }

  /** A query without a limit is answered as meant exactly when no record of the chain is misread. */
  lemma UnlimitedQuery(f: Filter, scan: seq<Entry>)
    requires f.limit == 0
    ensures Harmless(f, scan) <==> forall e :: e in scan ==> !Misread(f, e.rec)
  { hide Misread, Keep; }

  /** A segment and a filter that misses its record: everything from time 1 on, and a record at 2^63. */
  lemma QueryMisses() returns (chain: seq<bytes>, f: Filter)
    ensures f == ANY.(timeFrom := 1) && |Scan(chain)| == 1
    ensures Keep(f, false, Scan(chain)) == Scan(chain) && Keep(f, true, Scan(chain)) == [] && !Harmless(f, Scan(chain))
  {
    var r := RecordFormat.Record(RecordFormat.Meta([], [], ZERO32, 0, TWO63), [], None);
    var rec := RecordFormat.Encode(r);
    RecordFormat.RoundTrip(r);
    RecordFormat.EncodedSize(r);
    f := ANY.(timeFrom := 1);
    hide RecordFormat.Encode, RecordFormat.Decode;
    chain := OneRecordChain(rec);
    hide Scan;
    var scan := Scan(chain);
    assert scan[..0] == [] && Keep(f, false, []) == [] && Keep(f, true, []) == [];
    assert Wanted(f, false, rec) && !Wanted(f, true, rec) && Misread(f, scan[0].rec);
  }

  lemma OneRecordChain(rec: bytes) returns (chain: seq<bytes>)
    requires |rec| < TWO64
    ensures |chain| == 1 && Scan(chain) == [Entry(1, 0, rec)]
  {
    hide SegmentFormat.Encode, SegmentFormat.Decode;
    var seg := Segment(Header(1, ZERO32, 1, ZERO32, 0), [rec], None);
    RoundTrip(seg);
    chain := [SegmentFormat.Encode(seg)];
    ScanGrows([], chain[0]);
    assert [] + [chain[0]] == chain && Scan([]) == [];
  }

  // ---------------------------------------------------------------- what the callback sees

  /** What the query callback is given. */
  datatype Hit = Hit(id: Bytes32, segNo: nat, idx: nat)

  function Hits(H: HashFn, es: seq<Entry>): (hs: seq<Hit>)
    ensures |hs| == |es| && forall i :: 0 <= i < |es| ==> hs[i] == Hit(H(es[i].rec), es[i].segNo, es[i].idx)
  { seq(|es|, i requires 0 <= i < |es| => Hit(H(es[i].rec), es[i].segNo, es[i].idx)) }

  /** The rows as the callback sees them; the index is truncated to 32 bits. */
  function RowHits(table: Table, ids: seq<Bytes32>): (hs: seq<Hit>)
    requires forall i :: 0 <= i < |ids| ==> ids[i] in table
  { seq(|ids|, i requires 0 <= i < |ids| => Hit(ids[i], table[ids[i]].segNo, table[ids[i]].idx % TWO32)) }

  lemma HitsAgree(H: HashFn, table: Table, scan: seq<Entry>, kept: seq<Entry>)
    requires IndexOf(H, table, scan) && InOrder(kept)
    requires forall e :: e in kept ==> e in scan && e.idx < TWO31
    ensures forall i :: 0 <= i < |kept| ==> Ids(H, kept)[i] in table
    ensures RowHits(table, Ids(H, kept)) == Hits(H, kept)
  {
    hide RecordFormat.Decode;
    KeptRows(H, table, scan, kept);
    forall i | 0 <= i < |kept| ensures RowHits(table, Ids(H, kept))[i] == Hits(H, kept)[i] {
      assert kept[i] in kept;
      assert IsRow(table[H(kept[i].rec)], kept[i]);
    }
  }

  /** The rows of an answer, as the callback sees them, are those of the filtered scan: always by the columns, and
      by the filter's meaning exactly when no misread record matters. */
  lemma AnswerHits(H: HashFn, table: Table, chain: seq<bytes>, f: Filter, ids: seq<Bytes32>)
    requires IndexOf(H, table, Scan(chain)) && Answers(table, WhereOf(f), f.limit, ids)
    requires forall i :: 0 <= i < |chain| ==> |chain[i]| < TWO31
    ensures forall i :: 0 <= i < |ids| ==> ids[i] in table
    ensures RowHits(table, ids) == Hits(H, Cut(Keep(f, true, Scan(chain)), f.limit))
    ensures RowHits(table, ids) == Hits(H, Cut(Keep(f, false, Scan(chain)), f.limit)) <==> Harmless(f, Scan(chain))
  {
    hide IndexOf, InOrder, Scan, Keep, WhereOf, Answers, Wanted, Cut, Harmless;
    var scan := Scan(chain);
    ScanOrdered(chain);
    ScanIndexBound(chain);
    OneAnswer(H, table, scan, f, ids);
    CutOrdered(f, true, scan);
    CutOrdered(f, false, scan);
    CutsAgree(f, scan);
    HitsAgree(H, table, scan, Cut(Keep(f, true, scan), f.limit));
    HitsInjective(H, Cut(Keep(f, true, scan), f.limit), Cut(Keep(f, false, scan), f.limit));
    IdsInjective(H, table, scan, Cut(Keep(f, true, scan), f.limit), Cut(Keep(f, false, scan), f.limit));
  }

  lemma HitsInjective(H: HashFn, xs: seq<Entry>, ys: seq<Entry>)
    ensures Hits(H, xs) == Hits(H, ys) ==> Ids(H, xs) == Ids(H, ys)
  {
    if Hits(H, xs) == Hits(H, ys) {
      assert |xs| == |Hits(H, xs)| == |ys|;
      forall i | 0 <= i < |xs| ensures Ids(H, xs)[i] == Ids(H, ys)[i] { assert Hits(H, xs)[i] == Hits(H, ys)[i]; }
    }
  }

  /** The callback saw the rows in order, up to the first it did not answer with Ok, whose answer is the status,
      or up to the point where the engine failed. */
  ghost predicate Delivered(cb: Hit -> Status, hits: seq<Hit>, lost: Option<nat>, calls: seq<Hit>, st: Status) {
    && calls <= hits && (lost.Some? ==> |calls| <= lost.value)
    && (forall i :: 0 <= i < |calls| - 1 ==> cb(calls[i]) == Ok)
    && if calls != [] && cb(calls[|calls| - 1]) != Ok then st == cb(calls[|calls| - 1])
       else if lost == Some(|calls|) then st == IoError
       else st == Ok && calls == hits
  }
}
