# Vicarl ledger and replication: a Dafny model

Vicarl is an append-only, hash-chained ledger written in C. Records are buffered and flushed into segments;
each segment carries its number, the hash of the segment before it, a Merkle root over its records and the
records themselves. Segments live in a log store (one file per segment) or in SQLite (with an optional record
index), a verifier walks the whole chain, and a small peer-to-peer engine copies segments from one node to
another. This project models that stack and proves its central promises for all inputs, runs and reachable
states. `dafny verify dfyconfig.toml` checks everything.

## The main theorems

1. **Chain safety** (`ChainSafety.ChainSafeOverRuns`, `NodeObjects.Drive`): any interleaving of received messages
   with arbitrary content, tip announcements and ledger appends and flushes on one log store, with any of these
   calls failing, only appends to the store and leaves it accepted by the verifier. The engine's cached tip may be
   stale; it is always the number and hash of *some* stored segment, and the store's number test rejects the rest.
   Received frames may be any bytes. The objects themselves, driven through any such list of events, follow the
   run of the theorem.
2. **Replication** (`Replication.HonestPair`, `ExactConvergence`, `StuckForever`, `PrefixOverLooseRuns`): an honest
   pair in which both sides greet and announce never rejects a segment, has at most one request under way, and its
   leader never asks; once the leader's tip is announced, in this or any later round, the pair stops with the
   follower at exactly min(leader tip, start + max) after one request and one message per segment; the follower
   stays a prefix of the leader through loss, repetition and reordering; forked nodes take nothing from each other
   (`Forks.ForksStayApart`); frames in the queues make no difference (`FramedPair.SameRun`). Convergence for larger gaps is **false** of
   the code, for good, and the exact condition is proved.
3. **Writer/verifier agreement** (`Ledger.WriterVerifierAgreement`, `Verifier.VerdictExact`, `Chain.ChainExact`): whatever the writers
   produce is accepted, on every backend; the verifier's loop, over any store, returns OK exactly on chains with
   the full predicate, which is spelled out field by field; a verified root binds the records
   (`SegmentFormat.RootBindsRecords`), and every flushed segment carries its own root (`Ledger.RunStamps`).
4. **Tip hash binds history** (`Chain.TipBindsHistory`), **record conservation** (`Ledger.RecordsConserved`) and
   **batching** (`Ledger.BatchesExactly`), the latter with the exact condition under failing flushes.
5. **Merkle trees** (`Merkle.MerkleIsTree`, `ProofComplete`, `ProofSound`, `IndexNotBound`, `RootBinding`): the
   level-by-level loop computes a top-down tree, proofs are complete, and sound by exhibiting a collision otherwise;
   which side bits bind the index is settled both ways.
6. **Stores** (`LogStore.CrashesLoseNothing`, `RecordQuery.QueryIsScan`, `IndexedLedger.JamsExactly`): appends cut
   anywhere, one after the other, lose no acknowledged segment; the record index answers a query as a scan of the
   chain would exactly when no record that its signed time column misreads stands before the limit is reached; a
   ledger on an indexed store gets stuck exactly when two pushed records share an id or its buffer outgrows a
   Merkle tree.
7. **Formats** (`RoundTrip`, `PrefixFree`, `Reencode` of records, segments and frames) and **SHA-256 framing**
   (`Sha256.Context.Update`, `Final`): round trips, prefix-freedom, the exact set of byte strings on which
   re-encoding is the identity, and buffering and padding against FIPS 180-4.

## How it is modelled

- The classes, loops and in-place updates of the modelled C functions are Dafny classes and methods, and each
  contract equates what the method does with a function on values. The run theorems are about those functions.
- The hash is a parameter `H` of everything above `Sha256`: any total function from byte strings to 32 bytes.
  It is never assumed to be injective. Binding results end in "or here are two distinct inputs, one from each
  of two given finite sets of inputs actually hashed, with the same digest" (`Base.CollisionBetween`).
- Failing sends, reads, writes, renames, lost file tails, database statements, and allocations in the write buffers
  and in the ledger's append and flush are parameters; "Left out" names the failures that are not. The clock is a parameter too.
- Machine integers: `size_t` is 64 bits wide; wrap-around and truncation are written out where they can occur
  (capacity doubling, varint groups, segment numbers, record counts, message length, signed columns).
- A bitwise or of disjoint bits is written as a sum, a shift as a product or quotient.
- Messages are delivered from queues, as in examples/ex_p2p_loopback.c:160-186.
- Standing assumptions: segment numbers stay below 2^64 - 1 (2^63 for SQLite), runs make fewer than 2^63
  ledger calls, output sizes do not overflow 64 bits, SQLite blobs are shorter than 2^31 bytes, renames are
  atomic, writes durable (except where a lost tail is named), and a log directory holds only files the store made.

## Where the code departs from what one might expect

- Convergence stops after one batch: `awaiting_segments` is cleared only on reaching the peer's tip, so a gap
  above `max_inflight` leaves it set and nothing the pair does afterwards moves the follower
  (`Replication.ExactConvergence`, `Replication.StuckForever`).
- Decoding accepts more than encoders write: padded varints, a tenth varint group with bits beyond the 64th
  (the overflow test at src/core/codec.c:227 cannot be reached) and undefined flag bits. The `Reencode` lemmas give
  the exact condition, `FlagBitsIgnored`, `FlagByteIgnored` and `VarNotMinimalExamples` the inputs.
- A Merkle proof binds the `index` argument exactly when its side bits lead there (`Merkle.ProofSound`,
  `Merkle.IndexNotBound`), which the code does not check, and roots do not bind lists of different lengths
  (`Merkle.OddDuplicate`, `Merkle.DifferentLengthsShareRoots`).
- The log store does not compare the previous hash (`Chain.LogIgnoresPrev`, `Chain.TakenLinksExactly`,
  `Chain.LogTakesBreaks`); the
  repository's README also mentions an index file for the log store, which the code does not have: it scans the
  directory on open.
- A failed automatic flush leaves a full buffer, and the next record pushed onto it makes a segment that exceeds a
  target; that is the only way (`Ledger.BatchesExactly`, `Ledger.FailedFlushOverfills`).
- On an indexed SQLite store a repeated record blocks every later flush (`IndexedLedger.JammedForever`), and the
  time column is signed: a query can miss records or return wrong ones when times lie on both sides of 2^63
  (`RecordQuery.QueryIsScan` says exactly when, `RecordQuery.QueryMisses` gives a query that does).
- The log store ignores the result of closing its file. A tail lost there is published and acknowledged; the
  verifier always notices (`Chain.LostTailDetected`).

## Model

| member | source | states |
|---|---|---|
| `ChainSafety.ChainSafeOverRuns` | src/p2p/sync.c:116-206 | Every run of received messages with any content, received frames of any bytes, announcements, appends and flushes, with any failures, keeps the verifier satisfied, the cached tip a past tip, and the old chain a prefix of the new one. |
| `ChainSafety.SafeFromVerifiedStore` | src/p2p/sync.c:210-240 | The same, started with a new engine and an empty ledger buffer on any verified store. |
| `ChainSafety.AppliedSegmentLinks` | src/p2p/sync.c:149-194 | A segment that passes the engine's checks against a possibly stale cached tip and the store's number test links to the end of the chain. |
| `ChainSafety.ReceiveSafe` | src/p2p/sync.c:289-390 | One delivery of an arbitrary message keeps the chain verified, append-only and the cached tip a past one. |
| `ChainSafety.NextKeeps` | src/p2p/sync.c:265-390 | Every single step, received, announced or written, keeps the invariant and adds at most one segment. |
| `NodeObjects.Work` | src/p2p/sync.c:289-390 | One event handled by a real engine and handle on one store: both stay valid and their abstract state is the next state of the run. |
| `NodeObjects.Drive` | src/ledger/ledger.c:266-563 | Any list of events through the objects follows the run of the safety theorem, and the verifier then returns OK on the store, which has only grown. |
| `NodeObjects.Session` | src/store/store_log.c:608-696 | The same from the directory of a verified log store, opened, with a new engine and ledger. |
| `Replication.HonestPair` | src/p2p/sync.c:78-112 | With a growing leader, both sides greeting and announcing at any time, and FIFO queues, no step fails, at most one request (for the next number) is outstanding, queued segments are contiguous from the follower's next number, and the leader, which hears the follower's tips, never asks. |
| `Replication.HonestStep` | src/p2p/sync.c:265-374 | Each step of the pair succeeds and keeps that invariant, in which the leader's possibly stale cached tip covers all the follower has, is being sent or has announced. |
| `Replication.SegmentDelivered` | src/p2p/sync.c:361-374 | The leader's segment at the follower's next number is accepted and triggers no request; the waiting flag stays exactly while the announced tip is not reached. |
| `Replication.TipDelivered` | src/p2p/sync.c:299-306 | A true tip makes the follower ask exactly when it is behind and not already waiting. |
| `Replication.OldTipDelivered` | src/p2p/sync.c:78-92 | A node that hears a greeting, or a tip not above its cached one, sends nothing. |
| `Replication.ExactConvergence` | src/p2p/sync.c:78-112 | From any follower that awaits nothing, in a first or later round, and for any order of deliveries: at most one delivery for the tip, one for the request, one per segment; queues are empty exactly when all were made; then the follower holds min(leader tip, start + max) segments, has caught up if and only if the gap was at most max, and otherwise its flag is left set. |
| `Replication.FirstRound` | src/p2p/sync.c:210-287 | Two new engines are in such a state once the leader has announced. |
| `Replication.NextRound` | src/p2p/sync.c:196-206 | So is a pair that has caught up, once its leader has grown by any segments and announced again. |
| `Replication.StuckForever` | src/p2p/sync.c:94-98 | After a gap above max no growth, announcement, greeting or delivery, in any number and order, adds a segment to the follower or makes it ask. |
| `Replication.GapExists` | src/p2p/sync.c:94-98 | Such pairs exist for every start, batch size and larger length, whatever the hash. |
| `Replication.StuckAfterBatch` | src/p2p/sync.c:94-98 | A single waiting node sends nothing, however many higher tips it hears, true or not, and whatever fails. |
| `Replication.PrefixOverLooseRuns` | src/p2p/sync.c:157-184 | Under loss, duplication, reordering and failing calls, with both sides announcing, the follower's store stays a prefix of the leader's and the leader never asks. |
| `Replication.FollowerKeepsPrefix` | src/p2p/sync.c:116-206 | Any message the leader ever sent keeps the follower's store a prefix, and the follower answers with requests only. |
| `Replication.LeaderSendsOwn` | src/p2p/sync.c:299-359 | Whatever the follower ever sent, the leader answers with segments of its own chain up to its refreshed tip, and with nothing else. |
| `Replication.WaitersAskedOverRuns` | src/p2p/sync.c:109-110 | Through any lossy run with any failing calls a node waits only if it has sent a request at some time. |
| `Sync.RetryAfterFailedSend` | src/p2p/sync.c:105-111 | A tip whose request could not be sent leaves the node not waiting, and the same tip heard again makes it ask for its next number. |
| `Sync.TipExact` | src/p2p/sync.c:299-306 | Status, messages, flag and remembered peer tip after any tip, on any node: asked about exactly when it is above the cached number and nothing is awaited. |
| `Sync.SegmentExact` | src/p2p/sync.c:361-374 | The same after an applied segment: the flag is cleared on reaching the peer's tip, and a node below it that was not waiting asks for the one after. |
| `Sync.ApplyExact` | src/p2p/sync.c:116-206 | A received segment is applied if and only if it hashes to what was declared, links to the cached tip and has the next number of cache and store, and the write succeeds; otherwise nothing changes. |
| `Sync.ServeExact` | src/p2p/sync.c:308-359 | A request is answered with the consecutive segments from the first one asked for (1 for 0), at most as many as asked for (128 for 0), up to the tip or the first failure. |
| `Sync.TipMsgIsTip` | src/p2p/sync.c:265-287 | The announced number and hash are those of the last segment, zero for an empty store. |
| `Sync.ErrorChangesNothing` | src/p2p/sync.c:376-384 | An error message from the peer is reported and changes nothing. |
| `Forks.ForksStayApart` | src/p2p/sync.c:157-184 | Two verified stores that differ somewhere stay apart through any run on a lossy channel: the follower's store does not change and the leader's becomes what it would have become alone, or two of their segments collide. |
| `Forks.ForeignDelivery` | src/p2p/sync.c:116-206 | Any message of a forked peer leaves the node's store as it is, or the stores collide, whatever the cached tip. |
| `FramedPair.SameRun` | src/p2p/sync.c:34-48 | The pair with encoded frames in its queues goes through the states of the pair with messages, for every run. |
| `FramedPair.HonestFrames` | src/p2p/wire.c:31-328 | No frame of an honest pair is ever rejected, and the follower's store stays a prefix. |
| `Sync.Engine.constructor` | src/p2p/sync.c:210-240 | A new engine caches the store's tip and knows no peer; 0 per request means 128. |
| `Sync.Engine.RefreshLocalTip` | src/p2p/sync.c:50-76 | The cached tip becomes the tip of the store's chain, nothing else changes. |
| `Sync.Engine.RequestMoreIfNeeded` | src/p2p/sync.c:78-112 | Status, flags and sent messages are those of `RequestMore`, whose failed send `RetryAfterFailedSend` and whose every case `TipExact` pins down. |
| `Sync.Engine.CheckSegment` | src/p2p/sync.c:116-184 | The checks before the store is asked, in order and with their error codes. |
| `Sync.Engine.ApplySegment` | src/p2p/sync.c:116-206 | Checks, append and tip update together are `Apply`, on a valid store, for every way the write can go. |
| `Sync.Engine.ServeSegments` | src/p2p/sync.c:320-358 | The loop sends exactly the consecutive segments of the chain up to tip, limit or first failure. |
| `Sync.Engine.OnMessage` | src/p2p/sync.c:289-390 | For every message type the new node, chain, status and output are those of `Deliver`. |
| `Sync.Engine.Greet` | src/p2p/sync.c:248-263 | A greeting with protocol version 1.0 and the node's id; nothing else changes. |
| `Sync.Engine.AnnounceTip` | src/p2p/sync.c:265-287 | The tip sent is that of the chain, number 0 with a zero hash for an empty one, and the cache is refreshed. |
| `Ledger.WriterVerifierAgreement` | src/ledger/ledger.c:266-420 | From any state whose chain verifies, every run of appends and flushes, failing or not, leaves a chain that satisfies the full verifier predicate under the ledger's signature policy, on every backend; the run is the same on the two backends without an index. |
| `Ledger.AgreementFromEmpty` | src/ledger/ledger.c:266-420 | The same from an empty store. |
| `Ledger.FlushLinks` | src/ledger/ledger.c:363-417 | What a flush writes decodes to what was meant, passes the verifier at the next number and is taken by both backends without an index. |
| `Ledger.RunStamps` | src/ledger/ledger.c:363-417 | Over every run, failing or not, each segment it adds has the reference-tree root of its own records, or zero with Merkle off, and the time of one of the operations. |
| `Ledger.FlushStamps` | src/ledger/ledger.c:373-395 | A successful flush writes exactly the buffer, the given time and that root. |
| `Ledger.SignedHistory` | src/ledger/ledger.c:517-540 | Under the signature policy every record of a verified chain decodes to a signed record. |
| `Ledger.AppendMeaning` | src/ledger/ledger.c:266-337 | Every encoded record gets in unless it is unsigned under the policy or memory is out: it ends the buffer while that stays below both targets, and otherwise a successful flush takes the whole buffer. |
| `Ledger.RefusedBytes` | src/ledger/ledger.c:273-277 | Bytes that do not decode are refused as a format error. |
| `Ledger.VerifiedChain` | src/ledger/ledger.c:363-417 | There are verified chains of every length below 2^63, whatever the hash. |
| `Ledger.RecordsConserved` | src/ledger/ledger.c:266-420 | On every backend committed records followed by the buffer are the earlier ones followed by the pushed records, in order, also across failed flushes. |
| `Ledger.BatchesExactly` | src/ledger/ledger.c:310-334 | Whatever fails, every segment and the buffer hold 1 to target records whose total without the last is under the byte target, if and only if that was so before and no record was pushed onto a full buffer. |
| `Ledger.SegmentsAreBatches` | src/ledger/ledger.c:310-334 | When no flush triggered by an append fails, no record meets a full buffer: every segment is such a batch and the buffer stays below both targets. |
| `Ledger.FailedFlushOverfills` | src/ledger/ledger.c:310-334 | A failed flush of any full buffer keeps it full, and a record pushed next breaks a target for the rest of the run. |
| `Ledger.Opened` | src/ledger/ledger.c:187-242 | Positive targets are kept, zeros become 256 records and 524288 bytes, the flags stay. |
| `LedgerHandle.Handle.constructor` | src/ledger/ledger.c:208-242 | A new handle has an empty buffer on the store's chain and positive targets. |
| `LedgerHandle.Handle.ClearBuffer` | src/ledger/ledger.c:151-162 | The buffer and its byte count are empty. |
| `LedgerHandle.Handle.EnsureCapacity` | src/ledger/ledger.c:164-185 | The doubled capacity covers the request, or the call reports out of memory and changes nothing: exactly when more is needed and the allocation fails, or beyond 2^63 records. |
| `LedgerHandle.Handle.BuildSegment` | src/ledger/ledger.c:344-395 | The segment built from tip, buffer, options and clock, whose header `FlushStamps` pins down, or the error for more records than a Merkle tree takes. |
| `LedgerHandle.Handle.Flush` | src/ledger/ledger.c:339-420 | Status and new state are those of `Ledger.Flush`: all of the buffer is committed or nothing changes, out of memory included. |
| `LedgerHandle.Handle.AppendRecord` | src/ledger/ledger.c:266-337 | Status, state and returned id are those of `Ledger.AppendRecord`: without memory the record is not buffered, and a record whose flush fails stays buffered. |
| `LedgerHandle.SegmentSize` | src/model/segment.c:166-243 | An encoded segment takes at most 99 bytes, the records' bytes and ten bytes per record. |
| `Verifier.WalkExact` | src/ledger/ledger.c:434-563 | With reads succeeding, on any store, the walk returns OK if and only if numbers, links, formats, roots, signature rules and tip hash are all right. |
| `Verifier.VerdictExact` | src/ledger/ledger.c:434-563 | With the chain's own tip the verdict is OK if and only if the chain predicate holds; an empty store passes. |
| `Verifier.CheckLink` | src/ledger/ledger.c:463-545 | The status of one segment: verification, number, previous hash, signature policy. |
| `Verifier.Verify` | src/ledger/ledger.c:434-563 | The loop's verdict is the walk, whatever the store's reads return. |
| `Verifier.VerifyLog` | src/ledger/ledger.c:434-563 | On a valid log store the verdict is OK if and only if its chain satisfies the predicate. |
| `Verifier.VerifySqlite` | src/ledger/ledger.c:434-563 | The same on a valid SQLite store. |
| `Chain.TipBindsHistory` | src/ledger/ledger.c:434-563 | Two verified chains with the same tip hash are equal in length and in every byte, or two of their segments collide. |
| `Chain.ChainExact` | src/ledger/ledger.c:434-563 | The chain predicate field by field: at every position a decodable unsigned segment with the next number, the hash of the one before (zero at first), a root that is zero or that of the reference tree, and decodable, if required signed, records. |
| `Chain.PolicyCode` | src/ledger/ledger.c:517-540 | The signature policy has its own code, returned exactly for a segment with no other fault. |
| `Chain.ChainExtend` | src/ledger/ledger.c:463-545 | A linking segment extends a verified chain to a verified chain. |
| `Chain.SqliteImpliesLog` | src/store/store_sqlite.c:529-557 | What SQLite's number and link tests take, the log store's number test takes. |
| `Chain.LogSimulatesSqlite` | src/store/store_log.c:466-477 | Any sequence of segments SQLite takes is taken by the log store with the same resulting chain. |
| `Chain.LogIgnoresPrev` | src/store/store_log.c:466-477 | On every chain a segment with the next number is taken by the log store whatever its previous hash; SQLite takes it if and only if that hash is right. |
| `Chain.WrongNumber` | src/store/store_sqlite.c:537-545 | A segment with another than the next number is refused by both stores with the same code. |
| `Chain.TakenLinksExactly` | src/store/store_log.c:466-477 | What the log store takes extends a verified chain to a verified one if and only if the previous hash is right, for every segment valid in itself. |
| `Chain.LogTakesBreaks` | src/store/store_log.c:466-477 | For every verified chain and wrong previous hash there is a segment valid in itself that the log store takes and that breaks the chain. |
| `Chain.LostTailDetected` | src/store/store_log.c:537-545 | A segment that lost any part of its end does not decode, so the verifier rejects every chain that ends in it. |
| `Chain.LinkedIsTaken` | src/store/store_log.c:466-477 | A segment the verifier would accept next is taken by both backends without an index. |
| `LogStore.NameRoundTrip` | src/store/store_log.c:277-303 | Parsing the name of segment k gives k, for every 64-bit k. |
| `LogStore.NameLayout` | src/store/store_log.c:151-158 | A segment name is the prefix, the number in twenty decimal digits with the most significant first, and the suffix. |
| `LogStore.TmpIsNoSegment` | src/store/store_log.c:160-166 | No temporary name is taken for a segment name. |
| `LogStore.NamesDistinct` | src/store/store_log.c:151-166 | Different numbers have different names, temporary or not. |
| `LogStore.CrashAtomic` | src/store/store_log.c:445-559 | Every directory an append can leave behind, torn writes included, holds exactly the old chain or the old chain and the new segment. |
| `LogStore.CrashesLoseNothing` | src/store/store_log.c:445-559 | After any number of appends, each stopped anywhere and followed by a reopening, the directory holds the old chain followed by all acknowledged segments in order and perhaps some of the other offered ones. |
| `LogStore.Round` | src/store/store_log.c:445-696 | Open, append, stop after any step: what is left is one such try, with the old chain or the extended one, the latter if acknowledged. |
| `LogStore.HoldsOne` | src/store/store_log.c:305-355 | A directory holds at most one chain. |
| `LogStore.ScanTip` | src/store/store_log.c:305-355 | The scan returns the greatest number among the segment names, in any listing order, or 0. |
| `LogStore.ScannedTip` | src/store/store_log.c:305-355 | On a directory that holds a chain that number is the chain's length. |
| `LogStore.Store.CheckNumber` | src/store/store_log.c:459-477 | The test before an append: decodable number, and the next one. |
| `LogStore.Store.Append` | src/store/store_log.c:445-559 | The chain is extended and the tip updated exactly on OK, by what survives closing the file; every intermediate directory is one that `CrashAtomic` covers; the store stays valid unless a tail was lost. |
| `LogStore.Store.Publish` | src/store/store_log.c:505-545 | Temporary file, then rename; a failure after opening removes the temporary file; every directory on the way is one that `CrashAtomic` covers. |
| `LogStore.Store.ReadSegment` | src/store/store_log.c:411-443 | On a valid store number k gives the k-th segment of the chain and any other number an I/O error; in any condition the content of the segment's file, or an I/O error. |
| `LogStore.HeldFiles` | src/store/store_log.c:411-443 | A directory that holds a chain has a segment file for exactly the numbers of the chain, with its segments. |
| `LogStore.OpenLog` | src/store/store_log.c:608-696 | Opening a directory that holds a chain gives a valid store with exactly that chain and its tip. |
| `RecordIndex.LookupIsSearch` | src/store/store_sqlite.c:626-685 | A lookup in the index is a search of the chain by hash, and no other record of the chain has the id. |
| `RecordIndex.DistinctIds` | src/store/store_sqlite.c:131-144 | An indexed chain has no two records with the same id. |
| `RecordScan.InsertStatusExact` | src/store/store_sqlite.c:435-510 | The insert loop succeeds if and only if every record decodes and all ids, old and new, are distinct. |
| `RecordScan.InsertCodes` | src/store/store_sqlite.c:435-510 | Records that all decode can fail only by a repeated id, new distinct ids only by a record that does not decode. |
| `RecordScan.ScanGrows` | src/store/store_sqlite.c:457-499 | The scan of a chain with one more segment is the old scan followed by that segment's records. |
| `RecordIndex.IndexGrows` | src/store/store_sqlite.c:476-499 | One more row keeps the index exact for the scan with one more record. |
| `RecordIndex.IndexedIds` | src/store/store_sqlite.c:435-510 | The ids in an index kept since genesis are exactly those of the chain's records. |
| `IndexedLedger.AppendExact` | src/store/store_sqlite.c:512-623 | An indexed store takes a segment if and only if it links, it and its records decode, and no record id repeats. |
| `IndexedLedger.IndexedFlushExact` | src/store/store_sqlite.c:594-606 | A ledger flush onto an indexed store is taken if and only if the buffered ids are new and distinct. |
| `IndexedLedger.FlushExact` | src/ledger/ledger.c:339-420 | When nothing else fails, a nonempty buffer is flushed if and only if its ids are new and distinct and it is not larger than a Merkle tree takes. |
| `IndexedLedger.JammedForever` | src/ledger/ledger.c:310-420 | Once either condition fails, no append or flush of any later run commits anything; the buffer only grows and the condition stays violated. |
| `IndexedLedger.JamsExactly` | src/ledger/ledger.c:266-420 | A run on an indexed store ends with such a buffer if and only if two of the pushed records share an id or the buffer has outgrown a Merkle tree. |
| `RecordQuery.WhereExpresses` | src/store/store_sqlite.c:720-758 | The clause built from a filter selects the row of a record exactly when the filter wants the record by signed times. |
| `RecordQuery.SignedOrder` | src/store/store_sqlite.c:791-797 | Signed comparison of times agrees with unsigned comparison if and only if both are on the same side of 2^63. |
| `RecordQuery.MisreadExact` | src/store/store_sqlite.c:791-797 | That differs from what the filter means if and only if the record meets the text fields and its time is one that the two bounds, as placed around 2^63, misread. |
| `RecordQuery.OneAnswer` | src/store/store_sqlite.c:691-835 | What the engine may answer to a query is exactly one list, for every filter: the ids of the scan, filtered by signed times in order and cut at the limit. |
| `RecordIndex.ScanOrdered` | src/store/store_sqlite.c:761-761 | A scan meets records in strictly ascending (segment, index) order. |
| `RecordQuery.QueryIsScan` | src/store/store_sqlite.c:691-835 | That is the list the filter means, by unsigned times, if and only if every misread record stands behind as many hits as the limit asks for. |
| `RecordQuery.UnlimitedQuery` | src/store/store_sqlite.c:763-772 | Without a limit: if and only if no record of the chain is misread. |
| `RecordQuery.CutMeaning` | src/store/store_sqlite.c:763-772 | A limit keeps the first so many rows, limit 0 all of them. |
| `RecordQuery.QueryMisses` | src/store/store_sqlite.c:747-755 | Asked for everything from time 1 on, the store misses a record at 2^63. |
| `RecordQuery.AnswerHits` | src/store/store_sqlite.c:804-828 | The id, segment and (32-bit) index handed to the callback are those of the scan filtered by signed times, and those the filter means if and only if no misread record matters. |
| `RecordQuery.BuildWhere` | src/store/store_sqlite.c:720-758 | The conjuncts added step by step, one for each filter field that asks for something. |
| `SqliteStore.Store.constructor` | src/store/store_sqlite.c:175-215 | Opening tables that hold a chain recovers that chain and its tip. |
| `SqliteStore.Store.InsertRecords` | src/store/store_sqlite.c:435-510 | The loop ends with the status of `InsertStatus`, and on OK the index covers the segment's records too. |
| `SqliteStore.Store.CheckLink` | src/store/store_sqlite.c:527-557 | Number and previous hash tests with their error codes. |
| `SqliteStore.Store.Append` | src/store/store_sqlite.c:512-623 | The status is that of its backend; on OK the chain is extended; on any error, a repeated id or a failing statement included, segments, index and tip are unchanged. |
| `SqliteStore.Store.ReadSegment` | src/store/store_sqlite.c:312-376 | Number k gives the k-th segment of the chain, any other number is not found, and a failing engine is an I/O error. |
| `SqliteStore.Store.GetRecord` | src/store/store_sqlite.c:626-685 | The record a search of the chain finds, not found, an I/O error of the engine, or unsupported without an index. |
| `SqliteStore.Store.QueryRecords` | src/store/store_sqlite.c:691-835 | The callback sees the scan, filtered by signed times and cut, in order, up to its first refusal, whose status is returned, or up to the point where the engine fails; it is the scan the filter means when no misread record matters. |
| `Merkle.RootIsTree` | src/model/merkle.c:52-107 | Replacing levels by their parents computes that tree over the leaf hashes. |
| `Merkle.MerkleIsTree` | src/model/merkle.c:33-110 | The root of every list of records is a top-down tree over them written in plain concatenation, left before right, splitting at powers of two; zero for no records. |
| `Merkle.Sides` | src/model/merkle.c:24-31 | The 64 bytes hashed for a parent, and for a proof step, have the left node in front of the right one. |
| `Merkle.HeightIsLog` | src/model/merkle.c:138-146 | The number of levels is the binary logarithm rounded up. |
| `Merkle.RootBinding` | src/model/merkle.c:33-110 | Lists of equal length with equal roots are equal or a collision among the hashed inputs is exhibited. |
| `Merkle.OddDuplicate` | src/model/merkle.c:82-96 | For every odd length from 3 on, appending a copy of the last record keeps the root. |
| `Merkle.DifferentLengthsShareRoots` | src/model/merkle.c:82-96 | For any two different positive lengths there are lists sharing a root, whatever the hash. |
| `Merkle.ProofComplete` | src/model/merkle.c:125-261 | A built proof has ceil(log2 n) levels, its side bits are the binary digits of the index, and it is accepted. |
| `Merkle.ProofSound` | src/model/merkle.c:263-318 | Accepted bytes are the record its side bits lead to, which is the one at index when they lead there, or a collision is exhibited. |
| `Merkle.LandingExact` | src/model/merkle.c:292-318 | Side bits lead to index if and only if they are its binary digits, up to free choice at the last node of an odd level. |
| `Merkle.LandingOfDigits` | src/model/merkle.c:200-215 | The digits of an index lead to that index, through every odd level. |
| `Merkle.IndexNotBound` | src/model/merkle.c:263-318 | For all other side bits, every length and index and whatever the hash, there are a tree and bytes other than its record at index that are accepted for index and for every index in range. |
| `Merkle.ProofCodes` | src/model/merkle.c:263-318 | An index out of range is an argument error, a proof of the wrong length a format error. |
| `Merkle.HashLeaves` | src/model/merkle.c:48-65 | The level buffer holds the record hashes in order. |
| `Merkle.HashParents` | src/model/merkle.c:69-96 | One pass fills a new buffer with the parent level, the last node paired with itself when odd. |
| `Merkle.ComputeRoot` | src/model/merkle.c:33-110 | The level-replacing loop returns the root that `MerkleIsTree` describes, zero for no records, or the error for too many leaves. |
| `Merkle.BuildProof` | src/model/merkle.c:125-261 | The loop fills siblings and sides with the proof the completeness theorem is about; out of range and too many leaves are errors. |
| `Merkle.VerifyProof` | src/model/merkle.c:263-318 | The loop's verdict is the check the soundness theorem is about, including the argument errors. |
| `SegmentFormat.RoundTrip` | src/model/segment.c:166-408 | Decoding an encoded segment gives it back, for any number of records, signed or not. |
| `SegmentFormat.EncodedBytes` | src/model/segment.c:166-243 | The encoding byte string by byte string: magic, flag, header fields in order, delimited records, signature. |
| `SegmentFormat.PrefixFree` | src/model/segment.c:245-408 | No accepted segment is a proper prefix of another. |
| `SegmentFormat.Reencode` | src/model/segment.c:245-408 | Re-encoding reproduces accepted bytes if and only if flags are 0 or 1 and all varints minimal. |
| `SegmentFormat.FlagBitsIgnored` | src/model/segment.c:349-352 | The same for every segment. |
| `SegmentFormat.CountBound` | src/model/segment.c:330-372 | A segment holds no more records than bytes. |
| `SegmentFormat.PeekAgrees` | src/store/store_log.c:237-275 | On every byte string that decodes both peeks return the decoded number and previous hash. |
| `SegmentFormat.PeeksAgree` | src/store/store_sqlite.c:219-278 | Whatever the longer peek reads, the shorter one reads the same number. |
| `SegmentFormat.EncodeSegment` | src/model/segment.c:166-243 | The buffer writes produce the encoding, or report a wrong record count, or run out of memory, which needs a failing reallocation or more than 2^63 bytes. |
| `SegmentFormat.DecodeSegment` | src/model/segment.c:245-408 | The cursor reads accept and return exactly what `Decode` does. |
| `SegmentFormat.VerifySegment` | src/model/segment.c:439-497 | The loop and comparisons return the verdict that `VerifyExact` spells out. |
| `SegmentFormat.VerifyExact` | src/model/segment.c:439-497 | The verdict for every byte string: format error unless it and all its records decode and its root is zero or that of the reference tree; unsupported if then signed; otherwise OK. |
| `SegmentFormat.RootBindsRecords` | src/model/segment.c:469-483 | With a nonzero root, two verified segments that differ only in their records have the same records, or a collision among the hashed inputs is exhibited. |
| `SegmentFormat.PeekSegmentNo` | src/store/store_log.c:237-275 | The cursor reads of the log store's peek. |
| `SegmentFormat.PeekSegmentNoPrev` | src/store/store_sqlite.c:219-278 | The cursor reads of the SQLite store's peek. |
| `RecordFormat.RoundTrip` | src/model/record.c:42-238 | Decoding an encoded record gives it back, signed or not. |
| `RecordFormat.EncodedBytes` | src/model/record.c:42-112 | The encoding byte string by byte string: magic, flag, metadata fields in order, delimited payload, signature. |
| `RecordFormat.PrefixFree` | src/model/record.c:114-238 | No accepted record is a proper prefix of another. |
| `RecordFormat.Reencode` | src/model/record.c:114-238 | Re-encoding reproduces accepted bytes if and only if flags are 0 or 1 and all varints minimal. |
| `RecordFormat.FlagBitsIgnored` | src/model/record.c:191-200 | For every record and every flag byte with the right low bit the bytes still decode to the record, and re-encoding loses the other bits. |
| `RecordFormat.EncodeRecord` | src/model/record.c:42-112 | The buffer writes produce the encoding, or run out of memory, which needs a failing reallocation or more than 2^63 bytes. |
| `RecordFormat.DecodeRecord` | src/model/record.c:114-238 | The cursor reads accept and return exactly what `Decode` does. |
| `Wire.RoundTrip` | src/p2p/wire.c:31-328 | For all five message types decoding an encoded frame gives the message back. |
| `Wire.FrameBytes` | src/p2p/wire.c:31-163 | The frame of each message type byte string by byte string, with its type code. |
| `Wire.EncodeInjective` | src/p2p/wire.c:31-163 | Different messages have different frames. |
| `Wire.PrefixFree` | src/p2p/wire.c:165-328 | No accepted frame is a proper prefix of another. |
| `Wire.FrameIsWhole` | src/p2p/wire.c:165-328 | Every proper prefix and every proper extension of an encoded frame is rejected. |
| `Wire.Reencode` | src/p2p/wire.c:165-328 | Re-encoding reproduces an accepted frame if and only if its reserved flag byte is zero and its varints are minimal. |
| `Wire.FlagByteIgnored` | src/p2p/wire.c:165-215 | For every message any reserved flag byte is accepted, and re-encoding loses it. |
| `Wire.EncodeFrame` | src/p2p/wire.c:31-163 | The two buffers produce the frame, or run out of memory, which needs a failing reallocation or more than 2^63 bytes. |
| `Wire.DecodeFrame` | src/p2p/wire.c:165-328 | The two cursors accept and return exactly what `Decode` does. |
| `Codec.VarRoundTrip` | src/core/codec.c:126-239 | Reading an encoded value, wherever it stands and whatever follows, gives the value and consumes exactly its bytes. |
| `Codec.VarMeaning` | src/core/codec.c:126-142 | The encoder's 7-bit groups sum to the value, with continuation bits on all but the last and no zero last group. |
| `Codec.VarDigit` | src/core/codec.c:126-142 | Byte k of an encoding carries digit k of the value to base 128, lowest first, with a continuation bit unless it is the last. |
| `Codec.EncoderIsShortest` | src/core/codec.c:126-142 | No accepted form of a value is shorter than the encoder's. |
| `Codec.VarReencode` | src/core/codec.c:215-239 | Re-encoding reproduces the accepted bytes if and only if the last group is not superfluous and has no bits beyond the 64th. |
| `Codec.VarNotMinimalExamples` | src/core/codec.c:215-239 | Inputs on which it does not: a padded zero, and a tenth group whose bits are dropped. |
| `Codec.VarStable` | src/core/codec.c:215-239 | What is read depends on the bytes consumed only. |
| `Codec.VarTooLong` | src/core/codec.c:215-239 | Ten bytes with continuation bits, or the end of the input among them, are rejected. |
| `Codec.LdRoundTrip` | src/core/codec.c:144-257 | Length-delimited bytes are read back, consuming exactly their encoding. |
| `Buffers.GrowCapacity` | src/core/codec.c:64-85 | Doubling in machine arithmetic ends, covers what is needed, never shrinks, and fails only when that exceeds 2^63. |
| `Buffers.WriteBuffer.Reserve` | src/core/codec.c:64-85 | After OK length plus additional fits the capacity and the contents are untouched; it runs out of memory, changing nothing, exactly when it must grow and the reallocation fails, or beyond 2^63 bytes. |
| `Buffers.WriteBuffer.PutVar` | src/core/codec.c:126-142 | The loop appends the encoding of the value. Without memory nothing is written. |
| `Buffers.WriteBuffer.PutLd` | src/core/codec.c:144-153 | Appends length and bytes; without memory for the bytes the length may stay behind. |
| `Buffers.WriteBuffer.PutBytes` | src/core/codec.c:111-124 | Appends the bytes and keeps what was there. Without memory nothing is written. |
| `Buffers.WriteBuffer.PutU8` | src/core/codec.c:87-97 | Appends the byte and keeps what was there. Without memory nothing is written. |
| `Buffers.WriteBuffer.PutU16` | src/core/codec.c:99-109 | Appends the little-endian bytes. Without memory nothing is written. |
| `Buffers.U16Meaning` | src/core/codec.c:99-109 | The low byte of a 16-bit value comes first. |
| `Buffers.ReadBuffer.GetVar` | src/core/codec.c:215-239 | The loop returns the sum of the 7-bit groups modulo 2^64 and moves the cursor behind them, or rejects. |
| `Buffers.ReadBuffer.GetLd` | src/core/codec.c:241-257 | Returns the delimited bytes and moves the cursor behind them, or rejects. |
| `Buffers.ReadBuffer.GetBytes` | src/core/codec.c:196-213 | Returns the next n bytes, or rejects without moving when fewer are left. |
| `Fields.AllRoundTrip` | src/model/segment.c:166-408 | Any list of varint, delimited and fixed fields is read back from its encoding. |
| `Fields.AllStable` | src/model/segment.c:245-408 | Reading a field list depends on the bytes consumed only. |
| `Fields.AllReencode` | src/model/segment.c:245-408 | A parsed field list re-encodes to its bytes if and only if every varint in it is minimal. |
| `Sha256.Context.Update` | src/core/hash.c:139-172 | The context comes to stand for the message so far followed by the data, wherever the input is cut. |
| `Sha256.RepUnique` | src/core/hash.c:139-172 | A message determines chaining value and pending bytes: any two ways of cutting it end in the same state. |
| `Sha256.AbsorbAppend` | src/core/hash.c:139-172 | Absorbing the blocks of two parts in turn is absorbing the blocks of the whole. |
| `Sha256.Context.Mark` | src/core/hash.c:174-190 | Marker and, when the length does not fit, an extra block: what remains completes the padded message. |
| `Sha256.Context.Final` | src/core/hash.c:174-204 | The digest is the fold of compress over the blocks of the message padded as in section 5.1.1 of FIPS 180-4; `PadMeaning` and `DigestMeaning` say byte by byte what that padding and the digest are. |
| `Sha256.ZeroCount` | src/core/hash.c:174-190 | The number of zero bytes is the least that completes a block. |
| `Sha256.BigEndianValue` | src/core/hash.c:53-68 | Read from left to right, the bytes written for a value have that value. |
| `Sha256.PadMeaning` | src/core/hash.c:174-195 | The padded message byte by byte: the message, 0x80, zeros, and eight bytes whose value is the bit length, filling the last block. |
| `Sha256.DigestMeaning` | src/core/hash.c:197-200 | Bytes 4j to 4j + 3 of the digest have the value of word j. |
| `Sha256.InitialValue` | src/core/hash.c:82-94 | The initial words are the first 32 bits of the fractional parts of the square roots of the first eight primes. |
| `Sha256.Hash` | src/core/hash.c:208-241 | One update and one final compute that digest for every message. |

## Left out

- Reentrant send callbacks: a send that delivers before it returns would see `awaiting_segments` still unset (src/p2p/sync.c:109-110); messages are queued instead.
- The bit mixing of sha256_compress is a parameter of `Sha256`; only blocks, buffering, padding, length and output order are modelled.
- Allocation failure outside the write buffers and the ledger's append and flush, error-message buffers, NULL arguments, ownership and free calls (src/core/alloc.c, src/core/error.c).
- Real file, directory and database calls, fsync, PRAGMAs, schema text, busy waits and Windows branches: only their abstract effect.
- Signature checking: the repository has none (src/model/record.c:283-288, src/model/segment.c:486-492); only presence of signatures matters.
- vicarl_ledger_close, which drops the buffer, and segment iteration: they would only add easy members.
- Message types outside the five that the wire format knows, which on_message rejects: the message datatype has only the five.
- Opening an index on a SQLite database that already holds unindexed segments: the index theorems are about stores indexed since genesis.
- A ROLLBACK that fails.
- The FFI layer (src/ffi/ffi.c), examples, tests and build files.
- NodeObjects.Drive: the objects are driven on writes that are durable; what a lost tail leads to is stated by `LogStore.Store.Append` and `Chain.LostTailDetected`.
- LedgerHandle.Handle.EnsureCapacity: the unchecked byte size at src/ledger/ledger.c:177 (capacity times the size of an entry) overflows only beyond 2^58 buffered records and is not modelled.
- SegmentFormat.DecodeSegment: a record count too large to allocate is an out-of-memory status in the code (src/model/segment.c:321-329) before the missing records are noticed; here it is the format error that reading them gives.
- Buffers.WriteBuffer.Reserve: assumes that length plus additional does not overflow 64 bits, as the code does; so do the writers and encoders built on it.
- Replication.ExactConvergence: the leader's store is static during a round, as convergence to a moving tip is not what one announcement promises; `HonestPair` covers growth.
- SqliteStore.Store.Append: requires blobs below 2^31 bytes and numbers below 2^63, because the code casts them to int and to a signed column unchecked.
