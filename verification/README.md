# A verified model of the multi-version store and its protocols

This project models the core of an in-memory etcd server written in Rust and proves what its
parts promise, over every input, every run and every interleaving.

- **The store** (`Mvcc`, `StoreModel`, `ItemHistory`, `Versions`, `KeyIndex`, `Stores`,
  `RangeQueries`). Every successful write gets the next revision of a shared log. Each key keeps
  the list of its revisions and its newest value. The reference is a history, the plain sequence of
  all successful writes. Every run of writes and compactions is shown to answer as the history does.
- **Concurrent writers and readers** (`ConcurrentStore`). There is no global lock. Writers are
  steps Create, IndexKey, Lock, Push, Publish; readers are steps PickRev, Scan, ReadItem. The state
  machine interleaves them freely, together with compaction.
- **The revision log** (`BlockDeques` as a class over arrays, which the store uses, and
  `ConcurrentDeque` as a state machine of the two-phase push), against a sequence with an offset
  (`OffsetSequence`).
- **The sharded key index** (`ByteOrder`, `Prefixes`), against a flat scan in byte order.
- **The write-ahead log** (`WalCodec`, `WalWriter`, `WalProgress`, `WalBatch`, `WalLoad`, `MinHeaps`)
  and **recovery from it** (`Recovery`, `CrashRecovery`, `CrashRuns`).
- **Notification and watch streams** (`Notify`, `WatchPipeline`, `WatchNotify`, `WatchWriters`,
  `WatchDelivery`, `WatchRanges`, `WatchProgress`, `WatchStream`).
- **The Raft state machine and its snapshots** (`Snapshots`, `Raft`, `SnapshotReads`).

Operations that the source runs as loops over mutable state are methods, most of them of classes,
proved against a specification function; what the source promises is then proved about that
function. Protocols are state machines with `Enabled`, `Next`, `ValidRun` and `Exec`; an invariant
is proved for every step, and the theorems hold in every reachable state. Lemmas switch automatic
induction off, so that each proof is the one that is written down.

## What does not hold, and exactly when it does

Some promises fail for the code as it is. The model follows the code; each failure comes with a
run or an input that shows it and the exact condition under which the promise holds.

- *Compaction keeps the value visible at the compaction revision.* In every run it is found if and
  only if it was written after the compacted part or no later write has superseded it
  (`CompactionKeepsExactly`; `CompactionLoses` is a run of four operations that loses one). So a
  range is a consistent cut exactly while the write it should show lies after the compacted part
  (`CutIsConsistentIff`; `CompactedReadRun` is a run from the empty store that loses a live value).
- *A range misses no written key.* A new item goes into the tree and then into the prefix index, and
  another writer may complete a write in between. The scan finds a written key if and only if its
  creator does not stand between its two inserts (`ScanMissesIff`, `ScanMissesWrite`).
- *The comment at src/watch_service.rs:125-127 says that events at or below the last past event
  are duplicates.* That event is the last one in key order, not the newest. Besides, the scan of
  the past selects keys of one shard, and a writer that looks for watchers compares with the plain
  byte range. In runs whose scan catches no key half created, delivery is always exactly once if
  and only if both select the same keys and at most one (`ExactIffOneKey`, and `ServedExactlyIff`
  for a request). The runs `RangeWatchLoses` and `RangeWatchRepeats` exist for any two keys,
  `UnscannedLoses` and `UnnoticedLoses` for any key that only one of the two selects.
- *Scan and live filter of a watch select the same keys.* Exactly where not is said by
  `SelectionsDifferIff`; they agree without an end and in whole resource shards with a plain end
  (`WholeShardAgrees`). A watch on everything below "/registry/" loses what was written before it
  (`CrossShardWatch`), one with the zero byte as end what is written after it (`ZeroByteWatch`).
- *A watch on one key delivers every write once.* Unless its scan began while the key was in the
  tree but not in the prefix index, and a write of it had looked for watchers before this one came
  (`SingleKeyExactIff`; `CaughtKeyLoses` is such a run).
- *After a progress reply no later event is at or below the reported revision*
  (extern/etcd/api/rpc.proto:396-398). True in every continuation if and only if, when the
  progress revision is read, no undelivered event at or below it waits in the channel
  (`ProgressIff`). The loop finds the channel empty before it reads the revision, which is too
  early (`EmptyWhenPolledIsNotEnough`).
- *`more` tells whether a page was cut short.* For a request that is not count-only this holds if
  and only if the limit is not negative (`KvRange`; `NegativeLimit` is a request that shows it).
- *A record survives the log.* If and only if its key is shorter than 2^32 bytes and its value
  shorter than 2^32 - 1 (`RoundTripIff`); a value of just that length is read back as a deletion
  (`LongValueReadsAsDelete`).
- *Recovery after a crash gives an earlier state.* Start-up succeeds if and only if no file ends
  inside the body of a record; one that does stops it (`TornRun`). Then every key comes back as of
  its last surviving write. The store stands for the history of an earlier moment if and only if,
  besides, no file lost a record from before one that another file kept; otherwise the survivors
  are numbered afresh (`CrashAtAnyMoment`, `CrashRecoveryIsExact`; `GapRenumbers` is the least run).
- *The log writers come to rest.* When nothing more is appended, every run is bounded and can only
  stop with everything in the files, provided no batch leaves a non-empty queue without a record
  (`ComesToRest`, `EverythingIsWritten`). Only such idle batches make runs long
  (`OnlyIdlesAreUnbounded`), and a deadline that passes first allows any number of them after a
  single append (`IdleForever`).
- *Jobs are handed on once they arrive.* The notify counter starts at 1 and is not advanced by
  replay or by a snapshot import. Nothing is ever sent if and only if revision 1 never arrives
  (`StuckWithoutFirst`), which is the case in every process whose store starts out with a revision
  (`StuckAfterStart`, `StuckAfterReplay`).
- *A push in flight survives a removal.* A removal fails if and only if the block of the last
  element it removes is still missing (`RemovalCrashesIff`); it runs out of blocks with the write
  lock in hand. Removal and push together fail if and only if that is the case or the removal
  reached a block after that of the push; otherwise the push returns, but an element that was passed
  is not there (`RemovalPastPushCrashesIff`, with the runs `RemovalCrashRun` and `RemovalLossRun`).
- *A replica that installs a snapshot has the revisions of one that applied the whole log.* If and
  only if the exporter's revision is 0 or the modification revision of a live key
  (`RevisionsAgreeIff`); otherwise all later revisions come out lower by a constant
  (`SnapshotPlusSuffix`). A put and a delete of one key are enough (`DeletedKeyShifts`).
- *The compare check of the service predicts the store's verdict.* Except for the deletion of an
  absent key (`CheckPredictsSet`, with `AbsentDelete` for an empty store).

The comment at src/store.rs:741 calls the count of a range an estimate; it is exact
(`RangeIsExact`). The comment at src/store.rs:722 speaks of staying locked for all items of a
range; the code takes one lock at a time, and the model does the same.

## Model

| member | source | states |
|---|---|---|
| `Mvcc.Trim` | src/store.rs:316-325 | Of an increasing list exactly the revisions from the earliest on remain, in order. |
| `Mvcc.SearchFindsLastRev` | src/store.rs:786-796 | The search in a version list ends at the last write of the key at or before the revision, or at one that is compacted. |
| `Mvcc.FindIsVisible` | src/store.rs:780-797 | A lookup at any revision returns the key's last write at or before it, unless that write is both superseded and compacted; then it returns nothing. |
| `StoreModel.SetRefines` | src/store.rs:276-364 | A conditional write answers as the history does, with the same refusals, and leaves a state that stands for the history with the write appended. |
| `StoreModel.CompactRefines` | src/store.rs:918-937 | A compaction succeeds exactly above the compacted part and not above the current revision, and hides only what lies below it. |
| `StoreModel.RunRefines` | src/store.rs:276-364 | Every run of writes and compactions, with or without lazy trimming, gives the answers of the append-only history and ends in a state that stands for it. |
| `StoreModel.ReadsRefine` | src/store.rs:780-816 | In every reachable state, both lookups at any revision are what the history says. |
| `StoreModel.CompactionKeepsExactly` | src/store.rs:780-797 | In every run, a lookup above the compacted part finds the value visible there if and only if it was written after that part or no later write superseded it. |
| `StoreModel.CompactionLoses` | src/store.rs:932-936 | Four operations after which the lookup at the compaction revision finds nothing, although a live value was visible there. |
| `StoreModel.ItemsAreNamedKeys` | src/store.rs:225-272 | After every run the tree has an item for exactly the keys that some write named, whether it succeeded or not. |
| `Versions.VersionsCountWrites` | src/store.rs:331-345 | In every history, the create revision of a write begins an unbroken life of its key, before which the key was not live, and the version counts the writes of that life. |
| `Versions.ConcurrentVersions` | src/store.rs:331-345 | The same for the history of every interleaving of concurrent writers. |
| `Versions.EqualRevisionMeans` | src/store.rs:186-189 | A write that demands a last revision r >= 1 succeeds exactly when the key's last write is the one at r and no deletion; demanding 0 succeeds exactly for a put of a key that is not live; a negative number demands nothing. |
| `Versions.VersionIsLifeWrites` | src/store.rs:331-345 | The version of a live key is the number of its writes since it was last deleted. |
| `Versions.ConditionMeans` | src/store.rs:279-314 | When a conditional write succeeds, for both targets and all four comparisons, in terms of the key's last revision and the number of its writes since it was last deleted; what it appends; and that a refusal carries the current revision and the last write of a live key. |
| `Versions.SetMeans` | src/store.rs:279-364 | The same verdict and revision for the store after every run of writes and compactions. |
| `Versions.EqualVersionMeans` | src/store.rs:290-302 | A write that demands version n >= 1 succeeds exactly when the key is live and has been written n times since it was last deleted; demanding 0 succeeds exactly for a put of a key that is not live; a negative number demands nothing. |
| `ItemHistory.ScanItemLoop` | src/store.rs:876-904 | The loop over one item returns the events of the recursive walk. |
| `ItemHistory.ScanItemExact` | src/store.rs:876-904 | The walk over one item reports exactly the key's writes from the start revision on, each once and in order. Every event shows its write field by field: key, data, create revision, own revision and version, or empty data, create revision 0 and version 0 for a deletion. It carries the write before it, shown likewise, exactly when that is asked for and not compacted. |
| `ItemHistory.TrimmingIsInvisible` | src/store.rs:316-325 | A store that trims and one that never does give the same answers to every operation of every run, and then to every lookup and every watch history. |
| `ConcurrentStore.RunKeepsInv` | src/store.rs:276-364 | Every interleaving, with compactions at any accepted revision, keeps the invariant that an allocated but unpublished revision belongs to a key whose write lock is held. |
| `ConcurrentStore.ConsistentCut` | src/store.rs:706-769 | Under every interleaving, each key a reader reads shows the write that was last at the revision it had picked; the one exception is a write that is by then compacted and superseded. |
| `ConcurrentStore.WrittenKeysAreIndexed` | src/store.rs:225-272 | In every reachable state a key with a write is in the tree, and in the prefix index exactly when its creator is past the second of its two inserts. |
| `ConcurrentStore.ScanMissesIff` | src/store.rs:731-739 | A scan finds a key written at or before the picked revision if and only if the key's creator did not stand between its two inserts at that moment. |
| `ConcurrentStore.ScanMissesWrite` | src/store.rs:246-260 | A run from the empty store in which a completed, live write is missed by the scan. |
| `ConcurrentStore.QuietRepresents` | src/store.rs:276-364 | Whatever the interleaving, a state without a write in flight stands for its history, as the sequential operations would have left it. |
| `ConcurrentStore.WriteIsSequential` | src/store.rs:276-364 | A writer that holds the key's lock is refused or appends to the history exactly as the sequential write with its data and conditions does, whatever else is in flight. |
| `ConcurrentStore.UndisturbedWriteIsSet` | src/store.rs:316-364 | With nothing in between, the two steps of a write leave tree and log exactly as the sequential write does, down to the trimmed list of revisions. |
| `ConcurrentStore.CompactIsSequential` | src/store.rs:918-937 | A compaction among writes in flight succeeds exactly when the sequential one does, has the same effect on tree and log, and leaves history, locks and readers alone. |
| `ConcurrentStore.WinsAreRecorded` | src/store.rs:279-302 | Every successful write that demanded equality with a revision from 1 on is counted among those that `CasIsExclusive` speaks of. |
| `ConcurrentStore.CasIsExclusive` | src/store.rs:276-364 | Over any run, at most one conditional write that expects the same revision r >= 1 of the same key succeeds. |
| `ConcurrentStore.AllocatedFollow` | src/store.rs:326-327 | From any state, the writers of a run get the revisions that follow, each once and without a gap, whatever is compacted meanwhile. |
| `ConcurrentStore.CompactedReadIsLost` | src/store.rs:780-797 | In any state where the write that a reader should see is compacted, and however far a writer of the key has got, there is a continuation without compaction in which the read comes back empty. |
| `ConcurrentStore.CompactedReadRun` | src/store.rs:780-797 | A run from the empty store that does so for a value that was live at the picked revision. |
| `ConcurrentStore.CutIsConsistentIff` | src/store.rs:780-797 | For a live key, locked or not, every continuation without compaction reads right if and only if its visible write lies after the compacted part. |
| `BlockArithmetic.BlocksStep` | src/block_deque.rs:97-102 | When a push needs one more block, and when it does not. |
| `BlockArithmetic.WindowOffset` | src/block_deque.rs:225-230 | How many whole blocks a removal drops and what is left over, for any start within a block. |
| `OffsetSequence.Laws` | src/block_deque.rs:88-237 | What can be read at every index of the reference sequence after a push, an overwrite and a removal. |
| `BlockDeques.BlockDeque.constructor` | src/block_deque.rs:61-67 | A new deque is empty, starts at 0 and has no blocks. |
| `BlockDeques.BlockDeque.LatestRevision` | src/block_deque.rs:78-80 | The end of the live window. |
| `BlockDeques.BlockDeque.Push` | src/block_deque.rs:88-144 | Returns the next index and appends to the sequence; slots outside the window stay empty and the block count stays exact. |
| `BlockDeques.BlockDeque.Set` | src/block_deque.rs:148-179 | Replaces the element of a live index and nothing else; succeeds exactly for live indices. |
| `BlockDeques.BlockDeque.GetWith` | src/block_deque.rs:181-203 | Applies the function to the element of a live index and to nothing otherwise. |
| `BlockDeques.BlockDeque.Get` | src/block_deque.rs:205-210 | Reads the element at an index of the offset sequence, live or not. |
| `BlockDeques.BlockDeque.RemoveWholeBlocks` | src/block_deque.rs:225-230 | The loop drops exactly the blocks wholly below the index, and stays in bounds. |
| `BlockDeques.BlockDeque.RemoveBefore` | src/block_deque.rs:212-237 | Drops exactly the elements below the index, fails exactly outside the window, empties the dropped slots and keeps the block count exact. |
| `BlockDeques.BlockDeque.Clear` | src/block_deque.rs:240-245 | Back to the empty sequence that starts at 0. |
| `ConcurrentDeque.RunKeepsInv` | src/block_deque.rs:88-237 | Every interleaving of push phases, overwrites and removals keeps each slot in step with what was stored and never goes out of bounds. |
| `ConcurrentDeque.PushesAreSafe` | src/block_deque.rs:88-144 | In every reachable state nothing has crashed, returned indices are distinct, and returned and in-flight indices together are exactly 0, 1, ... without a gap. |
| `ConcurrentDeque.CompletedIsReadable` | src/block_deque.rs:181-203 | In every reachable state every returned index reads the value last stored there, or nothing once it is removed. |
| `ConcurrentDeque.StepIsRead` | src/block_deque.rs:88-237 | In every state that keeps the invariant: a push that returns makes its index read its value, an overwrite of a live index is read back, and a removal moves the start and leaves the end. |
| `ConcurrentDeque.OthersReadAsBefore` | src/block_deque.rs:88-237 | Every other returned index reads as before, unless it is removed. |
| `ConcurrentDeque.RemovalCrashesIff` | src/block_deque.rs:212-237 | A removal fails if and only if the block of the last element it removes has not been added. |
| `ConcurrentDeque.RemovalPastPushCrashesIff` | src/block_deque.rs:115-143 | Removal and second phase of a push fail if and only if that is the case or the removal reached a later block than the push; otherwise the push returns its index, and reads back nothing exactly when the removal passed it. |
| `ConcurrentDeque.MissingBlockCrashes` | src/block_deque.rs:231-234 | While nobody has added the block of a push, every removal past the push fails. |
| `ConcurrentDeque.RemovalCrashRun` | src/block_deque.rs:231-234 | Two pushes in flight in an empty deque, and a removal of the first index that fails within the block of the push. |
| `ConcurrentDeque.RemovalLossRun` | src/block_deque.rs:115-143 | A run in which the push returns an index at which nothing can be read. |
| `Prefixes.WholePrefixIsPrefix` | src/store.rs:939-966 | Every key that starts with a whole resource prefix, "/registry/X/" or with a dot in X "/registry/X/Y/", is split right after it. |
| `Prefixes.PrefixOfEveryKey` | src/store.rs:939-966 | The prefix of every key, from its slashes and dots alone: none outside "/registry/"; "/registry/" without a further slash; "/registry/X/" when X has no dot or nothing after it has a slash; "/registry/X/Y/" otherwise. |
| `Prefixes.PrefixOutside` | src/store.rs:949-951 | A key outside "/registry/" has the empty prefix and is its own suffix. |
| `Prefixes.PrefixTop` | src/store.rs:952-965 | The prefix of "/registry/X" without a further slash is "/registry/". |
| `Prefixes.PrefixResource` | src/store.rs:952-965 | The prefix of "/registry/X/rest", where X has no dot or the rest no slash, is "/registry/X/". |
| `Prefixes.PrefixDotted` | src/store.rs:952-965 | The prefix of "/registry/X/Y/rest", where X has a dot, is "/registry/X/Y/". |
| `Prefixes.Literals` | src/store.rs:949-965 | The bytes of "/registry/", the slash, the dot and the digit 0. |
| `Prefixes.OutsideRange` | src/store.rs:622-687 | For start and end outside "/registry/" a plain range is accepted and selects exactly the keys of [start, end) outside "/registry/". |
| `Prefixes.RejectedIff` | src/store.rs:635-671 | A query is rejected exactly when its end lies in another shard and is not the end of start's own shard, written with the digit 0 or a zero byte in place of the last slash. |
| `Prefixes.ShardedScan` | src/store.rs:622-687 | An accepted query with a plain end selects, in the shard of its start, exactly the keys of [start, end) in byte order, also when the end closes the shard with the digit 0. |
| `Prefixes.SingleKeyScan` | src/store.rs:627-630 | Without an end, exactly the start key. |
| `Prefixes.OpenEndedScan` | src/store.rs:631-679 | With a zero byte as end, or start plus a zero byte, every key of the shard from start on. |
| `Prefixes.FlatScan` | src/store.rs:622-687 | In a whole resource shard the query selects exactly the keys of [start, end) in the whole key space. |
| `KeyIndex.AddIndexes` | src/store.rs:250-264 | Indexing a key adds that key to its shard, in order, and no other. |
| `KeyIndex.ScanExact` | src/store.rs:728-739 | A scan lists, in byte order and without repetition, the indexed keys that the query selects. |
| `Stores.Store.constructor` | src/store.rs:163-172 | A new store is empty. |
| `Stores.Store.GetOrCreate` | src/store.rs:225-272 | Returns the key's item, and puts an empty one into tree and index when there is none. |
| `Stores.Store.Check` | src/store.rs:279-314 | The chain of comparisons accepts exactly the writes that the specification allows. |
| `Stores.Store.Publish` | src/store.rs:316-361 | Allocates the next revision and puts the new value into item, list and log, and changes no other key. |
| `Stores.Store.Set` | src/store.rs:190-369 | The new state and the answer of a conditional write; `StoreModel.SetRefines`, `Versions.ConditionMeans` and `StoreModel.ItemsAreNamedKeys` say what they mean. |
| `Stores.Store.SetForReplay` | src/store.rs:385-469 | The replayed write, without conditions; a deletion of a key that is not live is skipped. |
| `Stores.Store.Compact` | src/store.rs:918-937 | Compaction of the log; tree and index stay. |
| `Stores.Store.ListLive` | src/store.rs:735-772 | Lists the first so many live keys and counts all of them. |
| `Stores.Store.FindValue` | src/store.rs:780-797 | The lookup that reads the log block by block is the one whose meaning `Mvcc.FindIsVisible` gives. |
| `Stores.Store.HasValue` | src/store.rs:799-816 | The lookup that looks at the slot in place says whether the full lookup finds a live value. |
| `Stores.ScanPanicsIff` | src/store.rs:735-739 | The bounds of an accepted query are the wrong way round exactly when the shard is known and the end is a plain one in it that lies before the start. |
| `Stores.Store.Range` | src/store.rs:689-778 | When a range fails and how, and when an assertion stops it, in terms of start, end and revision; otherwise the page is the first limit live keys at the revision, and the count is that of all of them. |
| `Stores.Store.PastChanges` | src/store.rs:872-907 | The loop over the items of the range returns their histories one after the other. |
| `Stores.Store.Watch` | src/store.rs:831-912 | Exactly when a watch is refused, when the ordered map stops it and when it is served, in terms of start, end and revision; its past is the scan of every selected key in key order, or empty without a start revision. |
| `Stores.Store.ExportSnapshot` | src/store.rs:987-1004 | The live keys, once each, in any order; every entry has the data, create revision, modification revision and version of its key's newest value. |
| `Stores.Store.ImportSnapshot` | src/store.rs:1008-1062 | Replaces tree, index and log by the entries above blank revisions up to the newest modification; the last entry of a key becomes its only version, with the entry's data, revisions and version. |
| `RangeQueries.RangeIsExact` | src/store.rs:735-772 | The listed keys are exactly the selected keys that are live at the revision, in byte order. A page of any length shows of each of them the key, data, create revision, revision and version of its last write at or before the revision. |
| `RangeQueries.RangeIsFlatScan` | src/store.rs:728-772 | In a whole shard the listed keys are exactly the live keys of [start, end). |
| `RangeQueries.KvRange` | src/kv_service.rs:92-134 | Fails exactly for a future or compacted revision or a range across shards, and stops exactly for a plain end before the start in a known shard or keys without a revision; in particular it answers when start and end are in order and the revision is there. Then the page is the first min(limit, count) live keys, each shown field by field as the lookup finds it, with the count of all of them; for a request that is not count-only `more` tells whether the page was cut short if and only if the limit is not negative. |
| `RangeQueries.NegativeLimit` | src/kv_service.rs:92-134 | Of a store with one key, a request with limit -1 gets the whole page and yet `more`. |
| `RangeQueries.CheckPredictsSet` | src/kv_service.rs:59-86 | In every reachable state the service's check predicts whether the store accepts the write, except for the deletion of an absent key without a condition. |
| `RangeQueries.AbsentDelete` | src/kv_service.rs:59-86 | In an empty store the deletion of a key passes the check and is refused. |
| `WalCodec.RoundTripIff` | src/wal.rs:209-221 | One encoded record, whatever follows it, decodes to itself if and only if its lengths fit their fields. |
| `WalCodec.LayoutIs` | src/wal.rs:30-34 | The record format byte by byte: revision, key length and value length with the lowest byte first, four times 0xff for a deletion, then key and value. |
| `WalCodec.LongValueReadsAsDelete` | src/wal.rs:209-221 | A value of 2^32 - 1 bytes is read back as a deletion, and its bytes as what follows. |
| `WalCodec.DecodeCut` | src/wal.rs:37-56 | A partial record reads as the end of the file when cut inside the header and as an error when cut inside the body. |
| `WalCodec.TruncatedFile` | src/wal.rs:36-59 | Any cut of an encoded list decodes to the records wholly before the cut, and ends cleanly exactly at a boundary or inside a header. |
| `WalCodec.FileRoundTrip` | src/wal.rs:36-59 | Any list of fitting records decodes from its encoding. |
| `WalLoad.Reader.ReadFrom` | src/wal.rs:36-59 | The reader, taking bytes step by step, returns what the decoder says and leaves what the decoder leaves. |
| `WalLoad.PopKeepsMatch` | src/wal.rs:293-302 | Popping a record and pushing the next one keeps exactly one heap entry per reader that has records left. |
| `WalLoad.LoadWalDir` | src/wal.rs:261-305 | Succeeds exactly when every file reads to a clean end; emits the same multiset of records, sorted by revision when each file is. |
| `WalWriter.StepKeepsInv` | src/wal.rs:89-134 | Every step of appenders and workers keeps: one writer per prefix; file, bytes in hand and queue make up what was appended; work is attended to. |
| `WalWriter.WorkIsNeverStranded` | src/wal.rs:89-134 | In every reachable state a queue with work has a token on the channel, a worker that is not done with the prefix, or an appender about to send a token. |
| `WalWriter.FileIsPrefix` | src/wal.rs:193-255 | Every file is at all times a prefix of the encodings in append order. |
| `WalWriter.QuietMeansComplete` | src/wal.rs:89-134 | When no token, worker or appender is left, every file holds everything that was appended. |
| `WalWriter.NotStuck` | src/wal.rs:89-113 | Before that, with any pool of at least one worker thread, an appender or a thread of the pool can take a step. |
| `WalWriter.SpareTokenIsDropped` | src/wal.rs:93-97 | A token whose queue is empty is used up and changes nothing else; the flag is not taken. |
| `WalProgress.StepLowers` | src/wal.rs:89-134 | Every step other than an append, and other than ending a batch without a record from a non-empty queue, lowers a measure of the work left. |
| `WalProgress.ComesToRest` | src/wal.rs:89-134 | From every state and with any pool of worker threads, runs of such steps are bounded, and they can go on exactly until no token, worker or appender is left. |
| `WalProgress.OnlyIdlesAreUnbounded` | src/wal.rs:89-134 | Every run without appends is at most a bound longer than eight times the number of its batches that leave a non-empty queue alone. |
| `WalProgress.EverythingIsWritten` | src/wal.rs:193-255 | After any run from the start, such a run that has gone as far as it can has put everything ever appended into the files. |
| `WalProgress.IdleRound` | src/wal.rs:203-207 | When the deadline passes before the first record is taken, a round of the protocol leads back to the state it began in. |
| `WalProgress.IdleForever` | src/wal.rs:203-207 | One append and its token, from the start, and then runs of any length that end where they began, with the record still queued. |
| `WalBatch.PerPrefixWriter.Batch` | src/wal.rs:203-228 | The buffer is the encoding of the records taken off the queue; short of the deadline or the end of the queue it reaches the size limit. |
| `WalBatch.PerPrefixWriter.Flush` | src/wal.rs:230-244 | However the system splits the write, the file grows by exactly the buffer. |
| `WalBatch.PerPrefixWriter.WriteLocked` | src/wal.rs:193-255 | One batch moves a prefix of the queue, encoded, to the end of the file. |
| `MinHeaps.HeapPushOk` | src/store.rs:131-137 | A push keeps the smallest revision on top at every later pop. |
| `Notify.NotifyThread.Receive` | src/store.rs:595-615 | One arrival: spooled when early, otherwise sent, followed by all spooled jobs that are now next; progress is set after the sends. |
| `Notify.Reordering` | src/store.rs:589-616 | For any arrival order of distinct revisions: sent are 1, 2, ... in order without a gap, as far as the arrivals allow; everything else is spooled; progress is the last one sent. |
| `Notify.AllArrived` | src/store.rs:589-616 | Once 1, ..., n have arrived, all are sent in order and nothing is left over. |
| `Notify.StuckWithoutFirst` | src/store.rs:591-599 | Nothing is ever sent if and only if revision 1 never arrives. |
| `Recovery.ReplayRebuilds` | src/store.rs:385-469 | Replaying the records of a history into an empty store gives a store that stands for that history. |
| `Recovery.RecordsSay` | src/store.rs:534-549 | The record of each write has its revision, its key, and its data or the mark of a deletion. |
| `Recovery.StateIsDetermined` | src/store.rs:385-469 | Before any compaction the history determines log, version list and newest value of every key. |
| `Recovery.MergeRestoresOrder` | src/wal.rs:261-305 | Files that hold the encoded records of a history, split by prefix in any way, load cleanly and merge back to the records in revision order. |
| `Recovery.Recover` | src/store.rs:174-180 | Start-up succeeds exactly when every file reads cleanly, and then the store is the replay of a merge of the files. |
| `Recovery.NotifyRestoresOrder` | src/store.rs:534-549 | Whatever order the jobs arrive in, the log receives the writes in revision order. |
| `Recovery.AppendedInOrder` | src/wal.rs:120-134 | Every per-prefix file gets its share of the appends in append order, in every run of the writers. |
| `Recovery.RecoveryFrom` | src/store.rs:385-469 | From any store that stands for a history, through the log and back: the files load cleanly, and the replayed store has the same revision, newest values and reads at every revision, and is the same store if nothing was compacted. |
| `Recovery.RecoveryIsExact` | src/store.rs:534-549 | The same for every interleaving of concurrent writers without a write in flight, every arrival order of the jobs, every interleaving of the log writers until they rest, and every merge. |
| `Recovery.CrashLeavesPrefix` | src/wal.rs:193-255 | Stopped at any moment, each file loads as the first so many of its records, with an error exactly when the last write stopped inside a body. |
| `Recovery.StuckAfterStart` | src/store.rs:591-599 | From any state with a revision and for any interleaving of writers, no write that follows is ever handed on, and the progress stays 0. |
| `Recovery.StuckAfterReplay` | src/store.rs:174-180 | Every start from a log with a record in it is such a process. |
| `CrashRecovery.CutFilesMerge` | src/wal.rs:261-305 | Files that each kept the first so many of their records merge to the surviving records in revision order, and to nothing else. |
| `CrashRecovery.SurvivorsReplay` | src/store.rs:385-469 | Replaying the survivors gives a store that stands for the surviving writes numbered afresh. |
| `CrashRecovery.KeysComeBack` | src/store.rs:385-469 | Every key comes back with the data and version of its last surviving write. |
| `CrashRecovery.PrefixIff` | src/wal.rs:193-255 | The survivors are the records of an earlier moment if and only if no file lost a record from before one that another file kept. |
| `CrashRecovery.HistoryIsDetermined` | src/store.rs:385-469 | A store without a compacted part stands for one history only. |
| `CrashRecovery.EarlierIff` | src/store.rs:385-469 | Replaying the survivors gives the state of an earlier moment if and only if no file lost a record from before one that another file kept. |
| `CrashRecovery.CrashRecoveryIsExact` | src/store.rs:174-180 | For the files of log writers stopped at any moment: start-up succeeds if and only if no file ends inside a body; then every key comes back as of its last surviving write; and the store stands for the history of an earlier moment if and only if, besides, no file lost a record from before one that another file kept. |
| `CrashRecovery.HandedOnIsPrefix` | src/store.rs:589-616 | When only some jobs have arrived, what the log has received is the beginning of the history. |
| `CrashRecovery.CrashAtAnyMoment` | src/store.rs:174-180 | The same when the whole process is stopped at any moment: writers in flight, jobs on their way or spooled, log writers anywhere in their steps. |
| `CrashRuns.TornRun` | src/store.rs:176-179 | A run of the log writers that stops inside the body of the only record: no record before a surviving one is lost, and start-up fails. |
| `CrashRuns.GapRenumbers` | src/store.rs:385-469 | A run of the log writers that writes only the second of two files: start-up succeeds, the second write comes back under the revision of the first, and the store is that of no earlier moment. |
| `WatchPipeline.StepKeepsInv` | src/store.rs:471-616 | Every step of creators, writers, scan, notify thread and stream keeps: a write that both scan and live filter select, and that did not find the watcher, is or will be in the scan, unless its key was caught half created; the channel carries exactly the seen writes in revision order; the stream has delivered the scan and then the live events above its last one. |
| `WatchPipeline.CollectFindsIff` | src/store.rs:471-492 | A writer finds the watcher exactly when it looks after the registration, its key is one that the live filter selects and its revision is not below the watch's start. |
| `WatchPipeline.EmptiesChannel` | src/watch_service.rs:135 | Whatever waits in the channel can be sent in one batch per thousand events, the last one perhaps smaller. |
| `WatchPipeline.BatchesAreBounded` | src/watch_service.rs:135 | No run of batches takes more than a thousand events each, so emptying the channel needs that many. |
| `WatchDelivery.DeliveryCount` | src/watch_service.rs:100-150 | At rest, how often each write has been delivered: once for the scan, once more if it found the watcher and lies above the last scanned event; every watched write is in the scan or found the watcher, unless only one of the two selects its key or the key was caught half created. |
| `WatchDelivery.LostAndRepeated` | src/watch_service.rs:100-150 | Exactly which writes a watch loses, through the threshold, through a key that only the scan or only the live filter selects or through one caught half created, and which it repeats. |
| `WatchDelivery.SingleKeyExactlyOnce` | src/watch_service.rs:100-165 | For one key, any start revision from 1 on and every interleaving in which the scan does not catch the key between its two inserts: at every moment the stream has delivered the first so many writes from the start revision on, in order and once each, and at rest all of them. |
| `WatchDelivery.SingleKeyExactIff` | src/store.rs:872-907 | At rest a watch on one key has delivered exactly the key's writes from the start revision on if and only if the scan did not catch the key between its two inserts or every one of these writes found the watcher. |
| `WatchDelivery.CaughtKeyLoses` | src/store.rs:246-260 | A run in which a watch on a single key misses a write, because the scan began between the two inserts. |
| `WatchDelivery.FromNowExactlyOnce` | src/store.rs:840-870 | Without a start revision, on any number of keys: deliveries increase without repetition, and at rest they are exactly the writes that the live filter selects and that found the watcher, among them every one allocated after the registration. |
| `WatchDelivery.RangeWatchLoses` | src/watch_service.rs:100-142 | For any two keys that both scan and live filter select, both indexed, there is a run that comes to rest with a watched write never delivered. |
| `WatchDelivery.RangeWatchRepeats` | src/watch_service.rs:100-142 | For any two such keys there is a run that delivers a write twice. |
| `WatchDelivery.UnscannedLoses` | src/store.rs:872-876 | For any key that the live filter selects and the scan does not, a run that loses a write from before the watch. |
| `WatchDelivery.UnnoticedLoses` | src/store.rs:480-484 | For any key that the scan selects and the live filter does not, a run that loses a write from after the scan. |
| `WatchDelivery.ExactIffOneKey` | src/watch_service.rs:100-142 | Every run at rest whose scan caught no key half created has delivered every watched write exactly once if and only if scan and live filter select the same keys and there is at most one. |
| `WatchRanges.SelectionsDifferIff` | src/store.rs:471-492 | For which keys the scan of an accepted request and the filter of the writers differ: with a zero byte as end of the shard, those of the shard from start on; with any other end, those of the byte range in another shard; without an end, none. |
| `WatchRanges.WholeShardAgrees` | src/store.rs:622-687 | In a whole resource shard, with a plain end, they agree on every key. |
| `WatchRanges.ServedExactlyIff` | src/store.rs:831-912 | A watch request is served exactly in every run that catches no key if and only if its two selections agree on the keys that exist and hold at most one. |
| `WatchRanges.CrossShardWatch` | src/store.rs:644-651 | Watching ["/registry/", "/registry0"): every key with a further slash is noticed but not scanned, so one such key is enough to lose a write. |
| `WatchRanges.ZeroByteWatch` | src/store.rs:631-634 | With the zero byte as end the start key is scanned but not noticed, so it is enough to lose a write. |
| `WatchWriters.StoreStepMirrors` | src/store.rs:225-364 | Every step of the concurrent store can be made in the pipeline, and leaves both with the same keys in tree and index, the same writes and the same of them unpublished. |
| `WatchWriters.WatchedStoreIsPipeline` | src/store.rs:225-364 | Every interleaving of a run of the concurrent store with the steps of a watch is a run of the pipeline, with the watch's steps in their order. |
| `WatchProgress.ProgressSafe` | src/watch_service.rs:189-206 | If no undelivered event at or below the progress revision waits in the channel, no later event of any continuation is at or below the report. |
| `WatchProgress.ProgressIff` | src/watch_service.rs:189-206 | That condition is exact. |
| `WatchProgress.EmptyChannelIsSafe` | src/watch_service.rs:189-206 | In every reachable state with an empty channel a progress reply holds for ever. |
| `WatchProgress.EmptyWhenPolledIsNotEnough` | src/watch_service.rs:131-135 | A run in which the channel is empty when polled and the reply, whose revision is read later, is still overtaken. |
| `WatchNotify.ReceiveIsOnJob` | src/store.rs:595-615 | The pipeline's thread can always finish with a job it receives, and then it has done what one arrival does to the notify thread. |
| `WatchNotify.ThreadIsNotify` | src/store.rs:589-616 | In every run of the pipeline, whenever its thread waits, its counter, heap, sent jobs and progress are those of the notify thread after the same jobs in the same order; the progress is the last revision before the first that has not been received. |
| `WatchStream.EventStream.constructor` | src/watch_service.rs:100-128 | The stream begins with the past changes and the revision of the last of them, as the pipeline does. |
| `WatchStream.EventStream.OnBatch` | src/watch_service.rs:135-165 | A batch is reduced to the events above the newest revision so far, in order; nothing is sent when none is left; the stream stays in step with the pipeline. |
| `WatchStream.EventStream.Progress` | src/watch_service.rs:189-206 | The reply is a promise that every continuation of the stream keeps if and only if no event at or below it waits in the channel. |
| `WatchStream.ScanReportsRevs` | src/store.rs:876-904 | The scan of a real item reports exactly the revisions that the pipeline's scan step takes. |
| `WatchStream.WatchPastIsExact` | src/store.rs:872-907 | The past that a watch reports is, key by key, exactly the writes from the start revision on; every event is such a write shown field by field, and none is missing. |
| `Snapshots.ImportedItem` | src/store.rs:1029-1061 | After an import of an export, a live key has its newest value as its only version, and every other key has none. |
| `Snapshots.EntriesAreImported` | src/store.rs:1029-1061 | After an import the last entry of every key is its only version, field by field. |
| `Snapshots.ImportedRevision` | src/store.rs:1014-1027 | The imported revision is at most the exporter's, and equal if and only if that is 0 or the modification revision of a live key. |
| `Raft.StateMachineStore.constructor` | src/raft.rs:183-190 | A new state machine has applied nothing and has no snapshot. |
| `Raft.StateMachineStore.Apply` | src/raft.rs:256-295 | Applies the entries in order to the store and the metadata, with one response per entry. |
| `Raft.StateMachineStore.BuildSnapshot` | src/raft.rs:194-241 | The snapshot holds the live keys, each with the data, revisions and version of its newest value, and the metadata of the state, which it leaves alone. |
| `Raft.StateMachineStore.InstallSnapshot` | src/raft.rs:305-337 | The state becomes that of the snapshot, whatever it was; every key has its entry's data, revisions and version. |
| `Raft.AppliesAsMap` | src/raft.rs:256-295 | After any log the live keys and their data are those of a plain map with puts and deletes; each response is the revision grown by the number of changes; the metadata are those of the last entry and the last membership entry. |
| `Raft.SnapshotPlusSuffix` | src/raft.rs:256-337 | Installing a snapshot and applying the suffix gives the metadata, live keys, data and versions of applying the whole log; revisions written since are lower by a constant, and so are the responses. |
| `Raft.RevisionsAgreeIff` | src/store.rs:1014-1027 | Revisions agree after every suffix if and only if the exporter's revision is 0 or the modification revision of a live key. |
| `Raft.DeletedKeyShifts` | src/store.rs:1014-1027 | After a put and a delete of one key the exporter is at revision 2 and the installed replica at 0. |
| `Raft.InstalledReads` | src/store.rs:1044-1048 | An installed store shows a key at a revision if and only if the key was live and its newest modification is at or before it. |
| `Raft.InstalledKeepsBounded` | src/raft.rs:256-337 | A machine that started from a snapshot and applied entries can be exported in turn. |
| `SnapshotReads.LineageIsSound` | src/store.rs:987-1062 | However a store came about, through operations, compactions and installed snapshots: live keys have different revisions within the log, and every key has a history from which it is read. |
| `SnapshotReads.ReadsAfterSnapshot` | src/store.rs:780-816 | From the snapshot on, for any exporter, compacted or not and itself installed from snapshots any number of times: a replica that installed the snapshot reads any key at any revision from the same history of the key as the full replica does at the corresponding one, and never misses a value; the full replica misses exactly what is compacted and superseded. |

## Left out

- Raft consensus, its log store and its transports: the applied log is given.
- Leases, maintenance, metrics, start-up flags, the byte-size gauge: counters and stubs.
- The transaction, put and delete services beyond `check_compare`: they sequence calls of the store.
- JSON of snapshots: assumed to round-trip; a snapshot is a value.
- File names, file descriptors, fsync, failed or zero-length writes: a write appends at least one byte.
- Unpersisted prefixes of the log: every appended record is queued.
- A full watcher channel, which drops events: the channel of the pipeline does not fill up.
- The previous value of live events: an event of the pipeline is named by its revision.
- Unregistering a watcher and several watchers at once: each watcher has its own channel and filter.
- Conditional proposals in Raft mode: the check is made before an unconditional proposal.
- Fsync acknowledgements: the notifications that writers wait for carry no data.
- The shared item behind tree and prefix index: the index lists keys, and the tree holds the one item of each.
- ConcurrentDeque.PushesAreSafe: `remove_before` runs at an index not above any push in flight, as the comment at src/block_deque.rs:118-119 demands; `RemovalPastPushCrashesIff` says what happens otherwise. `clear` does not run concurrently.
- ConcurrentDeque.RemovalPastPushCrashesIff: one removal directly followed by the push; a failure is a flag, and a block number below zero counts as one.
- Stores.Store.ImportSnapshot: demands modification revisions of at least 1, which every export has.
- Mvcc.SearchFindsLastRev: the library's binary search is modelled by its result on an increasing list, not by its probes.
- MinHeaps.HeapPushOk: the binary heap is modelled as the order in which its entries come out, not as an array.
- WatchPipeline.StepKeepsInv: a job may overtake another between enqueueing and receipt; nothing is compacted while the watch is served.
