# DNA-DB engine model

A Dafny model of the storage and query engine of DNA-DB, a document store, with proofs of what its components promise.
`dafny verify dfyconfig.toml` checks the whole of it.

## What is modelled

- **Transactions** (`Mvcc`, `Transactions`, `TransactionRuns`, `TransactionLives`, `TransactionManagers`). Version
  chains, snapshots, the optimistic conflict check, version compaction, and how transactions end. The manager is a class
  over mutable chains; every method is proved against a function on values, and those functions refine a commit history
  whose fold is the database. The history outlives what compaction throws away.
- **Secondary indexes** (`Ordering`, `Sorting`, `SortRuns`, `Indexes`, `Trigrams`, `JsonText`, `PrefixRange`, `Like`,
  `Query`, `Numbers`, `IndexQueries`, `KeyOrders`, `ExactQueries`, `RowsById`, `PrefixQueries`, `ContainsQueries`).
  Sealed runs with stale ids, active sets, composite buckets, exact-string and trigram postings, kept up at each commit;
  and the query paths over them.
- **The log** (`WriteAheadLog`, `Durability`, `CommitAtomicity`, `DurableStores`, `WireOperations`). Byte framing, torn
  tails, reopening and truncation; crashes inside a commit; the durable store, which logs before it commits and recovers
  by replay, with the failures of its files; and a client's insert, update and delete, each a transaction of its own.
- **Replication** (`Replication`). A replica that pulls batches from its checkpoint on, under every schedule of
  duplicated, delayed and reordered delivery.
- **Strand queries** (`Encoding`, `Strands`, `Dictionaries`, `Segments`, `Scan`, `GuidedScans`). The base-4 codon codec,
  the hash prefilter, Bloom filters, dictionaries, segment and block pruning, and chunked scans.
- **Lateral schema transfer** (`Transfer`, `SplitSyncs`, `SyncOrders`) and **overlays** (`Overlays`).

Where the engine changes an object in place the model has a class with a `modifies` clause; where it computes, a
function. Libraries enter as function parameters with only the facts a proof needs: `serde_json` on logged payloads
(decoding inverts encoding), the text of values that are no strings, UTF-8 decoding, the FNV and BLAKE3 hashes, the
numeric reading of a value, and conversion of numbers to `f64`.

## What the proofs found

The code is modelled as it is. Where a promise does not hold on all inputs the project gives inputs on which it fails,
and the condition under which it holds.

- At a clock of `u64::MAX` timestamps saturate and a commit reaches into open snapshots (`StableIffClockAdvances`).
- One to seven stray bytes after a torn write are accepted on opening, and what is logged after them is then not read
  back as it was logged (`AppendAfterStrayBytesIff`, `CrashLosesNothingIff`, `UnshiftedWhen`).
- There is no marker for the end of a commit: after a crash inside one, some first operations of it are recovered. That
  is none or all of it, after every crash and on every state, iff the write set is one operation, given once or more
  (`CrashInsideCommit`, `CommitIsAtomicIff`, and `CrashIsAtomicIff` for one state); with two records written into an
  empty store, one can be recovered without the other (`HalfACommit`).
- A commit that fails past its conflict check, on an operation too large to frame or on its files, leaves operations in
  the log that recovery applies (`TornIsHarmlessIff`, `FailedCommitLeavesAWrite`, `FailedCommitIsHarmlessIff`).
- The replica's out-of-order error cannot be raised; a batch that starts past the replica is applied with a gap
  (`OutOfOrderIsUnreachable`, `DeliveryKeepsStepIff`).
- The last step of a query sorts its rows again, by the text of the order field: the ordered index gives the keys 9 and
  10, and the query 10 and 9. Key order survives exactly on pools of values whose texts stand as their keys do
  (`KeyOrderIff`, `ClashReorders`, `TextOrderIsNotKeyOrder`).
- Numbers are compared as `f64`: two integers that round to one float compare as equal (`ComparisonExactIff`), and a
  negative integer does not even differ from a `u64` literal (`OutOfKindNeverMatches`).
- Exact-string lookups escape stored values and not literals. A literal that needs escaping usually has no posting list
  and the path declines; where the list exists, it is that of another value, and every match is lost
  (`ExactPathCompleteIff`, `ExactPathLosesItsMatch`). The composite index finds nothing by such a literal
  (`KeyServesIff`, `UncleanBucketIsLost`).
- A prefix whose last byte is 0x7F or 0xBF has no upper bound for its key range, and a limited query by id can then
  miss rows, unless the prefix is all U+10FFFF (`BoundExistsIff`, `PrefixPathExactIff`, `LimitedPathLosesRows`).
- A contains query looks at eight candidates for each row asked for. It can return too few rows for every needle of more
  than three characters, and the wrong ones for every order (`ContainsPathExactIff`, `CutOffLosesTheMatch`,
  `CutOffLosesTheFirst`); within the cut-off it loses nothing (`WithinCutOff`).
- Range clauses are pruned as numbers and verified as bytes (`AcceptedIsSkippedIff`, `PoolLosesNothingIff`,
  `NumericRangePruningLoses`).
- Block metadata is matched with segments by position among the survivors (`BlockPruningIff`, `MisalignedLoses`),
  although the comments at engine/src/query/scan.rs:35-40 align it with all segments.
- Clauses on `_signature` pass verification and never the prefilter (`SignatureIsPrefilteredAway`,
  `PrefilterKeepsIff`).
- A payload longer than 49151 bytes comes back cut, and is then no longer found by its bytes (`PayloadWholeIff`,
  `FoundByItsBytesIff`).
- A packet whose mutation is refused can leave an empty collection behind (`RefusalIsCleanIff`).
- A packet that arrives after a later one of its origin was synced is dropped, with success (`LateDeliveryIff`,
  `LateDeliveryIsDropped`). Two syncs of a split set apply all of it iff numbers go on within each origin
  (`SplitAppliesAllIff`).

## Model

| member | source | states |
|---|---|---|
| Mvcc.VisibleIsBaseline | engine/src/mvcc.rs:59-65 | On a chain ordered by timestamp, a snapshot sees the record of the last version at or before it, and nothing before the first |
| Mvcc.FirstAfterUnique | engine/src/mvcc.rs:30-42 | The insertion point is the one place with all older-or-equal versions before it and all newer ones after |
| Mvcc.InsertNewest | engine/src/mvcc.rs:30-57 | The fast path (push when the timestamp is not older than the last) and the partition-point path put the version at the same place |
| Mvcc.InsertedSorted | engine/src/mvcc.rs:30-57 | Insertion keeps a chain ordered |
| Mvcc.InsertedVisible | engine/src/mvcc.rs:30-65 | An inserted version changes exactly the snapshots at or after it and before the next version |
| Mvcc.SuffixVisible | engine/src/mvcc.rs:59-65 | Dropping versions below a baseline the snapshot can see does not change what it sees |
| Mvcc.CompactionStartIsGreatest | engine/src/mvcc.rs:85-121 | Compaction drops the longest prefix that leaves the baseline of the oldest snapshot and the floor of newest versions |
| Mvcc.CompactionKeepsView | engine/src/mvcc.rs:85-121 | Compaction keeps order, the newest timestamp, at least the floor of versions, and the view of every snapshot from the boundary on |
| Mvcc.VersionChain.Insert | engine/src/mvcc.rs:30-57 | The chain becomes the old one with the version inserted, still ordered |
| Mvcc.VersionChain.CompactForOldestSnapshotWithFloor | engine/src/mvcc.rs:85-121 | The chain becomes its compaction |
| Transactions.ApplyAllLastWriteWins | engine/src/transaction.rs:54-75 | Folding a write set leaves every record with its last write, or as it was |
| Transactions.WroteMeaning | engine/src/transaction.rs:97-114 | A record counts as written iff some operation of the write set names it |
| Transactions.InstallAppends | engine/src/transaction.rs:116-137 | A commit at the newest timestamp appends its versions to each chain, in write-set order |
| Transactions.VisibleAfterAppend | engine/src/transaction.rs:54-75 | Snapshots from the commit timestamp on see its last write; earlier ones see no change |
| Transactions.BeginRefines | engine/src/transaction.rs:41-52 | Beginning a transaction keeps the chains in agreement with the commit history |
| Transactions.RollbackRefines | engine/src/transaction.rs:139-147 | Rolling a transaction back keeps the chains in agreement with the commit history |
| Transactions.ConflictIsExact | engine/src/transaction.rs:97-114 | The check rejects iff some commit after the snapshot wrote a record of the write set, though versions may have been compacted away |
| Transactions.CommitRefines | engine/src/transaction.rs:116-137 | A commit that passes the check keeps chains and history in agreement, with the commit added to the history, and keeps first-committer-wins |
| Transactions.CompactedChain | engine/src/transaction.rs:159-170 | Compaction keeps the newest timestamp of every chain and the view of every snapshot from the boundary or the clock on |
| Transactions.CompactionReachesAll | engine/src/transaction.rs:159-170 | Compaction drops from every chain the longest prefix that may be dropped |
| Transactions.IdleCompactionKeepsNewest | engine/src/transaction.rs:159-170 | With nothing active and a floor of one, each record keeps its newest version only |
| Transactions.CompactRefines | engine/src/transaction.rs:153-170 | Compaction up to the oldest active snapshot keeps the agreement for every snapshot that can still be read |
| Transactions.FreshSnapshotSeesCurrent | engine/src/transaction.rs:41-87 | A snapshot taken now sees the fold of the whole history |
| TransactionRuns.NextKeepsInv | engine/src/transaction.rs:41-170 | Every begin, write, commit, rollback and compaction keeps the refinement and the book of active snapshots |
| TransactionRuns.RunKeepsInv | engine/src/transaction.rs:41-170 | Every run of such steps keeps the refinement and the book of active snapshots, while the two counters have room |
| TransactionRuns.ReadsAreSnapshotReads | engine/src/transaction.rs:54-75 | In every run an active transaction reads its own last write, else the fold of the commits at or before its snapshot |
| TransactionRuns.OthersDoNotDisturb | engine/src/transaction.rs:41-170 | No step of another transaction, and no compaction, changes what an active transaction reads |
| TransactionRuns.SnapshotIsStable | engine/src/transaction.rs:41-170 | No interleaving of other transactions' steps and compactions changes what an active transaction reads |
| TransactionRuns.StableIffClockAdvances | engine/src/transaction.rs:116-137 | At a given clock value, which counts the commits, that stability holds in every world iff the clock can still advance; at `u64::MAX` a commit reaches into open snapshots |
| TransactionRuns.RunsKeepFirstCommitterWins | engine/src/transaction.rs:97-137 | In every run, of two commits that wrote a common record the later one's snapshot is at or after the earlier one's timestamp |
| TransactionRuns.TimestampsCountCommits | engine/src/transaction.rs:116-137 | Commit timestamps are the positions in the history, and every snapshot precedes its commit |
| TransactionRuns.StateAtIsPrefixFold | engine/src/transaction.rs:54-87 | Reading at the timestamp of the k-th commit folds exactly the first k commits |
| TransactionRuns.NoUpdateIsLost | engine/src/transaction.rs:97-137 | What a committed transaction saw of a record it wrote is what the database held immediately before its commit |
| TransactionLives.NextAccounted | engine/src/transaction.rs:41-170 | Every step keeps the account: the committed transactions are those with a commit in the history, one each, and only active ones are held as active |
| TransactionLives.RunAccounted | engine/src/transaction.rs:41-170 | In every run that account and the invariant hold |
| TransactionLives.RollbackIsFinal | engine/src/transaction.rs:97-147 | A transaction rolled back while active, at any point of any run and whatever comes after: it stays rolled back, every commit of it is refused, no commit of the history is its own, and it holds no compaction back |
| TransactionLives.CommitIsFinal | engine/src/transaction.rs:97-147 | One whose commit went through: exactly one commit of the history is its own, with its snapshot and its writes, and is never changed; a second is refused |
| TransactionLives.EndedStaysEnded | engine/src/transaction.rs:97-147 | No step of any run changes how a transaction has ended |
| TransactionManagers.TransactionManager.constructor | engine/src/transaction.rs:37-39 | A new manager is empty and refines the empty history |
| TransactionManagers.TransactionManager.Begin | engine/src/transaction.rs:41-52 | The transaction is active under the next id, without writes, with its snapshot at the clock, and known to be active; the refinement is kept |
| TransactionManagers.TransactionManager.Read | engine/src/transaction.rs:54-75 | The answer is the transaction's own last write over the fold of the commits its snapshot covers |
| TransactionManagers.TransactionManager.VisibleRecords | engine/src/transaction.rs:77-87 | The result is exactly the fold of the commits at or before the snapshot, without the transaction's own writes |
| TransactionManagers.TransactionManager.Write | engine/src/transaction.rs:89-95 | The operation goes to the end of the write set and nothing else changes |
| TransactionManagers.TransactionManager.CheckCommit | engine/src/transaction.rs:97-114 | The loop over the write set answers what the conflict check of the specification does |
| TransactionManagers.TransactionManager.Commit | engine/src/transaction.rs:116-137 | Ok only of an active transaction without a conflict: it is then committed, without writes and no longer active, at the next timestamp, and the history has grown by its commit; else nothing has changed |
| TransactionManagers.TransactionManager.InstallWrites | engine/src/transaction.rs:121-133 | The draining loop leaves the chains with the write set installed in order |
| TransactionManagers.TransactionManager.InsertInto | engine/src/transaction.rs:121-133 | The record's chain, created when absent, gets the version; every other chain is untouched |
| TransactionManagers.TransactionManager.Rollback | engine/src/transaction.rs:139-147 | Ok iff the transaction was active: it is then rolled back, without writes and no longer active, and every other transaction, the chains, the counters and the history are as they were; else nothing has changed |
| TransactionManagers.TransactionManager.OldestActiveSnapshot | engine/src/transaction.rs:149-151 | The answer is the least active snapshot, none iff nothing is active |
| TransactionManagers.TransactionManager.CompactVersionsWithFloor | engine/src/transaction.rs:159-170 | All chains are compacted at the oldest active snapshot (`u64::MAX` when nothing is active) and the refinement is kept |
| TransactionManagers.TransactionManager.CompactChains | engine/src/transaction.rs:159-170 | The loop over the chains compacts each of them once |
| WriteAheadLog.ParseEntry | engine/src/wal.rs:105-143 | The reader takes a framed entry off the front of any bytes |
| WriteAheadLog.FrameBytes | engine/src/wal.rs:80-92 | Byte by byte: the number in eight bytes and the payload's length in four, low bytes first, and then the payload |
| WriteAheadLog.ParseLog | engine/src/wal.rs:80-143 | Parsing inverts appending, whatever follows |
| WriteAheadLog.CutLog | engine/src/wal.rs:105-143 | A log cut at any byte reads as exactly the whole entries inside the cut when fewer than eight bytes are left over, and as a truncated entry otherwise |
| WriteAheadLog.ParseIff | engine/src/wal.rs:105-143 | The reader answers with these entries iff the bytes are their frames and at most seven more |
| WriteAheadLog.ReadBackIff | engine/src/wal.rs:80-143 | Entries appended after stray bytes are read back iff the stray bytes merely shift their frames onto themselves |
| WriteAheadLog.StrayBytesShift | engine/src/wal.rs:80-143 | With b stray bytes that never happens while the first sequence number is below 256^(8-b) |
| WriteAheadLog.AppendAfterStrayBytesIff | engine/src/wal.rs:80-143 | Up to seven stray bytes at the end are accepted; whatever is appended after them is read back, for every sequence of entries, iff there are none |
| WriteAheadLog.CutOpens | engine/src/wal.rs:38-143 | A log file cut anywhere after its header is refused as truncated, or opens and reads as exactly the entries wholly inside the cut; which of the two is decided by the bytes left over |
| WriteAheadLog.OpenedIsWritten | engine/src/wal.rs:176-226 | Every file that opens is the frames of the entries read and up to seven stray bytes, with the next sequence number after them |
| WriteAheadLog.OpensIff | engine/src/wal.rs:38-63 | A file opens iff it is empty, or the header, whole frames and up to seven bytes more |
| WriteAheadLog.OpenRefusals | engine/src/wal.rs:176-226 | Which refusal it is: too short for the header, another magic, another version, or a torn entry behind a right header |
| WriteAheadLog.AppendWritten | engine/src/wal.rs:80-92 | Appending to such a file adds the entry, behind the stray bytes |
| WriteAheadLog.WrittenReadsBackIff | engine/src/wal.rs:105-143 | Such a file is read back as all its entries iff the stray bytes merely shift the later ones onto themselves |
| WriteAheadLog.HoldsIsRead | engine/src/wal.rs:38-63 | A log that holds entries is read back as those entries and reopens to the same state |
| WriteAheadLog.AppendHolds | engine/src/wal.rs:80-92 | Appending adds the entry to what the log holds, under the next sequence number |
| WriteAheadLog.TruncateHolds | engine/src/wal.rs:161-173 | Truncating empties the log and keeps the next sequence number |
| WriteAheadLog.SequencesIncrease | engine/src/wal.rs:38-173 | Over every run of appends, truncations and reopens, each number handed out is greater than all before it and the file holds exactly what was appended since the last truncation |
| WriteAheadLog.NumbersCount | engine/src/wal.rs:38-173 | In every run the numbers handed out are 1, 2, 3 and so on, across truncations and reopenings |
| WriteAheadLog.NextLogKeepsInv | engine/src/wal.rs:38-173 | Each of those steps keeps file, counter and side file consistent |
| WriteAheadLog.ReadEntries | engine/src/wal.rs:105-143 | The scanning loop computes the parse of the bytes after the header |
| WriteAheadLog.Wal.OpenOrCreate | engine/src/wal.rs:38-63 | Opening checks magic and version, scans, and takes the larger of the scanned and the side-file sequence; each error case is the source's |
| WriteAheadLog.Wal.AppendPayload | engine/src/wal.rs:80-92 | The frame is appended and the counter advanced; an oversize payload changes nothing |
| WriteAheadLog.Wal.ReadAllEntries | engine/src/wal.rs:105-143 | All entries of the file, or the truncation error of its parse |
| WriteAheadLog.Wal.ReadEntriesFrom | engine/src/wal.rs:146-157 | The entries from a sequence number on, in order, at most the limit |
| WriteAheadLog.Wal.TruncatePreserveNextSequence | engine/src/wal.rs:161-173 | The file is a bare header and the next sequence is in the side file |
| Durability.CurrentIsFold | engine/src/transaction_durable.rs:591-599 | The committed state is the fold of all operations of the history in order |
| Durability.PayloadCarries | engine/src/transaction_durable.rs:41-54 | A logged payload carries its operation, and the transaction it belongs to |
| Durability.FreshNeverConflicts | engine/src/transaction_durable.rs:1957-1966 | A replayed operation, begun and committed at once, never conflicts |
| Durability.ReplayRefines | engine/src/transaction_durable.rs:591-599 | Replaying a list of operations refines a history whose operations are exactly that list |
| Durability.ReplayPrefixIsFold | engine/src/transaction_durable.rs:591-599 | After replaying any prefix of a log, a transaction reads the fold of the operations in it |
| Durability.RecoveredIsCommitted | engine/src/transaction_durable.rs:591-599 | At a commit boundary the recovered state reads as the committed state before the crash |
| Durability.TornIsHarmlessIff | engine/src/transaction_durable.rs:452-507 | With operations of a failed commit in the log, and any later ones behind them, recovery reads the committed state iff the last of them on each record that was not written later leaves it as the committed state had it |
| Durability.FailedCommitLeavesAWrite | engine/src/transaction_durable.rs:452-487 | Of a write set with one operation that changes a record and then one too large to log, the first is in the log of the failed commit, and recovery applies it |
| Durability.CrashInsideLog | engine/src/transaction_durable.rs:591-599 | After a crash anywhere in an intact log, opening reports a truncated entry or replays to the fold of the whole entries |
| CommitAtomicity.CrashInsideCommit | engine/src/transaction_durable.rs:452-599 | After a crash anywhere in the entries of one commit, opening reports a truncated entry or recovers the state before it with some first operations of the commit applied |
| CommitAtomicity.PartsIff | engine/src/transaction_durable.rs:452-599 | On a given state every number of first operations does nothing or everything iff the write set changes at most one record and each operation leaves its record as it was or as it will be |
| CommitAtomicity.AtomicIff | engine/src/transaction_durable.rs:452-599 | On every state it does iff the write set is one operation, given once or more |
| CommitAtomicity.CrashIsAtomicIff | engine/src/transaction_durable.rs:452-599 | For one log file: every crash inside its last commit is recovered as none or all of it iff that commit, on the state before it, changes at most one record and each operation leaves its record as it was or as it will be |
| CommitAtomicity.CommitIsAtomicIff | engine/src/transaction_durable.rs:452-599 | Over all log files, all states before and all crashes: a write set is recovered as none or all of it iff it is one operation, given once or more |
| CommitAtomicity.HalfACommit | engine/src/transaction_durable.rs:452-599 | Two records written into an empty store, and the log cut after the first entry: it opens, and recovery finds one record of the two |
| DurableStores.DurableTransactionStore.ReplayWalToMvcc | engine/src/transaction_durable.rs:591-599 | The replayed manager's history holds exactly the operations of the log as it is read; a log that cannot be read is refused with the reader's error |
| DurableStores.DurableTransactionStore.ReplayEntries | engine/src/transaction_durable.rs:591-599 | The loop applies every entry it can decode and skips the others |
| DurableStores.DurableTransactionStore.ApplyReplayedOp | engine/src/transaction_durable.rs:1957-1966 | One operation is added to the end of the history |
| DurableStores.DurableTransactionStore.Recover | engine/src/transaction_durable.rs:140-186 | Refused exactly when the configuration file, the log or the strand files are, with the first of these errors; else, from any log file, the committed state is the fold of the operations read, the indexes mirror it, and up to seven stray bytes stay in front of what is logged next |
| DurableStores.DurableTransactionStore.Begin | engine/src/transaction_durable.rs:279-281 | A new transaction with the manager's clock as its snapshot; the committed state, the log and the indexes are untouched |
| DurableStores.DurableTransactionStore.LogOne | engine/src/transaction_durable.rs:452-487 | One operation goes into the log unless its frame is too large; a strand write that fails after that leaves it there |
| DurableStores.DurableTransactionStore.LogWrites | engine/src/transaction_durable.rs:452-507 | The log grows by one entry for each operation up to the first too large, or through the one whose strand is not written; the answer says which, or that flush or sync failed |
| DurableStores.DurableTransactionStore.LogPending | engine/src/transaction_durable.rs:452-507 | The log is torn iff it was, or the write set failed with some of it logged |
| DurableStores.DurableTransactionStore.LogCommit | engine/src/transaction_durable.rs:413-507 | A conflict writes nothing to the log; a write set that does not get through whole tears it, unless none of it got in |
| DurableStores.DurableTransactionStore.CommitUnindexed | engine/src/transaction_durable.rs:413-550 | The answer, the operations logged and the new committed state for every case: conflict, oversize operation, failing strand write, failing flush or sync, success |
| DurableStores.DurableTransactionStore.CommitInner | engine/src/transaction_durable.rs:404-570 | For each of these cases: the answer, the operations logged, the committed state, and that the indexes are told of the write set iff incremental indexing is on and the commit succeeded |
| DurableStores.OutcomeMeans | engine/src/transaction_durable.rs:413-507 | A commit succeeds iff its transaction is active and meets no conflict, all its operations can be framed and the files do not fail; it answers the next timestamp. A refusal by the transaction leaves nothing in the log |
| DurableStores.StrandFailureIsLogged | engine/src/transaction_durable.rs:452-487 | An operation whose strand cannot be written is in the log by then, with all before it and none after |
| DurableStores.OversizeIsNotLogged | engine/src/transaction_durable.rs:452-487 | One too large to frame is not in the log, nor any after it; all before it are |
| DurableStores.DurableTransactionStore.Rollback | engine/src/transaction_durable.rs:388-392 | A rollback leaves the log, the committed state and the indexes alone |
| DurableStores.DurableTransactionStore.RunVersionCompaction | engine/src/transaction_durable.rs:573-576 | Compaction (with a floor of at least one) leaves the committed state and the log alone |
| DurableStores.DurableTransactionStore.RebuildSortIndexes | engine/src/transaction_durable.rs:745-790 | Afterwards the indexes mirror the committed state |
| DurableStores.DurableTransactionStore.OrderedQuery | engine/src/transaction_durable.rs:291-345 | Where the ordered index is the path taken, a query returns the first matching rows in key order, sorted again by the text of the key: the same rows, and the same list iff the texts are in that order |
| DurableStores.CrashLosesNothingIff | engine/src/transaction_durable.rs:591-599 | Between operations the log is read back as everything logged iff stray bytes of an earlier crash have not shifted it; it then reopens as it was and, unless a failed commit has torn it, replays to the committed state |
| DurableStores.UnshiftedWhen | engine/src/wal.rs:80-143 | That is so for every store opened without stray bytes or that has logged nothing since, and not for one that has while sequence numbers are below 256^(8-b) |
| DurableStores.WholeFile | engine/src/wal.rs:80-92 | Without stray bytes the log file is the header and the frames of everything logged |
| DurableStores.FailedCommitIsHarmlessIff | engine/src/transaction_durable.rs:452-507 | A store with operations of a failed commit in its log, and any commits made since, recovers its committed state iff the last of them on each record that was not written since says what was committed before |
| WireOperations.FreshCommits | engine/src/transaction_durable.rs:601-666 | A transaction begun now can commit whatever it writes |
| WireOperations.BeginAndSelect | engine/src/transaction_durable.rs:620-654 | The selected ids are those of the committed records the filter accepts |
| WireOperations.StageUpdates | engine/src/transaction_durable.rs:631-638 | The write set has one upsert for each selected record, with the fields set, and folds to the state with the fields set in exactly those |
| WireOperations.StageDeletes | engine/src/transaction_durable.rs:655-657 | The write set has one delete for each selected record and removes exactly those from any state |
| WireOperations.CommitFresh | engine/src/transaction_durable.rs:394-396 | The commit of a transaction that cannot conflict succeeds iff its whole write set gets through the log; the log grows by what gets through |
| WireOperations.Finish | engine/src/transaction_durable.rs:639-643 | A transaction with writes is committed iff they get through the log, one without is rolled back and nothing is logged |
| WireOperations.ExecuteInsert | engine/src/transaction_durable.rs:610-619 | A value that is no object or has no `id` of that kind is refused and nothing is logged; else the insert succeeds iff its one operation gets through the log, and the committed state then gains the record under its own `id` |
| WireOperations.ExecuteUpdate | engine/src/transaction_durable.rs:620-645 | Succeeds iff nothing is selected, or the files do not fail and every new record can be framed; the fields are then set in exactly the committed records selected, and the answer is their number. On an error nothing is committed; the log grows by what got through |
| WireOperations.ExecuteDelete | engine/src/transaction_durable.rs:646-664 | Succeeds iff nothing is selected, or the files do not fail and every deletion can be framed; exactly the committed records selected are then gone, and the answer is their number. On an error nothing is committed |
| WireOperations.RecordIdIff | engine/src/transaction_durable.rs:1761-1763 | A record has an id iff its `id` field holds an integer that is not negative, and it is that |
| WireOperations.ToRowMeans | engine/src/transaction_durable.rs:610-616 | What is inserted is the object itself under the integer in its `id` field; a value is refused as no object, or as an object without such an `id` |
| WireOperations.InsertKeepsIds | engine/src/transaction_durable.rs:610-619 | An insert keeps every record under the integer in its `id` field |
| WireOperations.UpdateKeepsIdsIff | engine/src/transaction_durable.rs:620-664 | A delete does, and an update does iff it sets no `id`, or the one that each record it changes has |
| WireOperations.UpdatedMeans | engine/src/transaction_durable.rs:631-638 | In the selected records the given fields are set and the others as they were; the other records are as they were |
| WireOperations.TextClauseUpdates | engine/src/transaction_durable.rs:1859-1868 | For a filter of one comparison with a text, which records those are: by the first byte at which the UTF-8 of value and literal differs |
| WireOperations.TextClauseDeletes | engine/src/transaction_durable.rs:1859-1868 | And which are gone after a delete with such a filter |
| SortRuns.DeindexedMirrors | engine/src/transaction_durable.rs:873-898 | Taking a record out of the active set, or marking it stale in the sealed run, leaves one entry for each other record |
| SortRuns.IndexedMirrors | engine/src/transaction_durable.rs:938-952 | Adding a record gives it exactly one entry |
| SortRuns.SealedMirrors | engine/src/transaction_durable.rs:760-782 | A freshly sealed run holds one entry for each record with an integer key |
| SortRuns.ListingIsRebuilt | engine/src/transaction_durable.rs:956-1051 | Live sealed entries and active ones, merged, are the list a rebuild would seal |
| SortRuns.HeadIsLeast | engine/src/transaction_durable.rs:956-1051 | Of two disjoint halves the smaller head is the least of both |
| SortRuns.SkipStaleUp | engine/src/transaction_durable.rs:956-1051 | Moving up past stale entries finds the least live one |
| SortRuns.SkipStaleDown | engine/src/transaction_durable.rs:956-1051 | Moving down past stale entries finds the greatest live one |
| SortRuns.MergeUp | engine/src/transaction_durable.rs:956-1051 | The ascending merge returns exactly the first rows of the merged list that match, up to the limit |
| SortRuns.MergeDown | engine/src/transaction_durable.rs:956-1051 | The descending merge returns exactly the first rows of the merged list, from its end, that match, up to the limit |
| Indexes.FilesDetermine | engine/src/transaction_durable.rs:792-857 | Two inverted indexes over the same records have the same non-empty posting lists, however they were built |
| Indexes.Unfile | engine/src/transaction_durable.rs:899-918 | A record's pairs are removed from the posting lists, and no others |
| Indexes.CompositeDeindexedMirrors | engine/src/transaction_durable.rs:919-935 | A record leaves its composite bucket and no other entry does |
| Indexes.CompositeIndexedMirrors | engine/src/transaction_durable.rs:835-856 | A record enters the bucket of its filter value under its sort key |
| Indexes.SecondaryIndexes.DeindexRecord | engine/src/transaction_durable.rs:873-936 | Every index goes from mirroring the view to mirroring it without the record |
| Indexes.SecondaryIndexes.IndexRecordValues | engine/src/transaction_durable.rs:938-954 | Every index goes from mirroring the view to mirroring it with the record |
| Indexes.SecondaryIndexes.IndexExactAndCompositeOnly | engine/src/transaction_durable.rs:792-857 | The exact, trigram and composite indexes take in the record |
| Indexes.SecondaryIndexes.ApplyWrites | engine/src/transaction_durable.rs:859-871 | After a committed write set the indexes mirror the view with the write set applied |
| Indexes.SecondaryIndexes.Rebuild | engine/src/transaction_durable.rs:745-790 | A rebuild mirrors the visible records, with sealed runs and empty active sets |
| Indexes.SecondaryIndexes.SealSorts | engine/src/transaction_durable.rs:760-782 | Each sort field's run is the ordered list of its integer keys |
| Indexes.SecondaryIndexes.Configure | engine/src/transaction_durable.rs:188-232 | A new configuration takes effect on all records at once |
| JsonText.PrefixKeyExact | engine/src/transaction_durable.rs:1804-1810 | A stored key starts with the key of a prefix iff the value starts with the prefix |
| JsonText.ValueKeyInjective | engine/src/transaction_durable.rs:1721-1723 | Different strings have different keys |
| JsonText.EscapeReadBack | engine/src/transaction_durable.rs:1721-1723 | A JSON reader (section 7 of RFC 8259) gets every string back from its escaped form |
| JsonText.KeysAgreeIffClean | engine/src/transaction_durable.rs:1721-1733 | The key a literal is looked up under is the key its value is stored under iff no character needs escaping |
| JsonText.UncleanMeetsOnlyOthers | engine/src/transaction_durable.rs:1721-1733 | A literal that needs escaping can only meet other values |
| PrefixRange.BumpedRange | engine/src/transaction_durable.rs:1812-1822 | Between a byte string and its last-byte increment lie exactly the byte strings it is a prefix of; without an increment, exactly those at or above it |
| PrefixRange.PrefixUpperBound | engine/src/transaction_durable.rs:1812-1822 | The loop from the back computes the increment and then decodes it |
| PrefixRange.BoundExistsIff | engine/src/transaction_durable.rs:1812-1822 | For UTF-8 text the bound exists iff the last byte is neither 0x7F nor 0xBF |
| PrefixRange.KeyRangeHoldsPrefix | engine/src/transaction_durable.rs:1824-1848 | The scanned key range holds every value with the prefix, and no other when the bound exists |
| PrefixRange.KeyRangeExactIff | engine/src/transaction_durable.rs:1824-1848 | The range holds only values with the prefix iff the bound exists or the prefix is all U+10FFFF |
| Trigrams.TrigramsForText | engine/src/transaction_durable.rs:1768-1781 | The grams are exactly the windows of three characters |
| Trigrams.GramsEmptyIffShort | engine/src/transaction_durable.rs:1768-1781 | A text has no grams iff it is shorter than three characters |
| Trigrams.ContainedGrams | engine/src/transaction_durable.rs:1783-1802 | A text has all grams of what it contains |
| Trigrams.CandidateIdsForContains | engine/src/transaction_durable.rs:1783-1802 | The candidates are exactly the ids filed under every gram; none are offered for a short needle or a missing gram |
| Like.CellIsMeaning | engine/src/transaction_durable.rs:1920-1940 | The recurrence of the table agrees with the inductive meaning of `%` and `_` |
| Like.LikeMatches | engine/src/transaction_durable.rs:1920-1940 | The table program decides that meaning, for all strings and patterns |
| Like.FillRow | engine/src/query/fetch.rs:230-250 | The inner loop fills one row of the table and touches no other |
| Like.MeansSplit | engine/src/transaction_durable.rs:1920-1940 | A pattern in two parts matches iff the value splits in two that match them |
| Like.PrefixShortcut | engine/src/query/like_util.rs:9-24 | The recogniser fires iff the pattern is a plain literal and one trailing `%`, and LIKE is then "starts with" |
| Like.ContainsShortcut | engine/src/query/like_util.rs:30-42 | The recogniser fires iff the pattern is a plain literal between two `%`, and LIKE is then "contains" |
| Like.PlaceByPlace | engine/src/transaction_durable.rs:1920-1940 | A pattern without `%` matches exactly the texts of its length that agree with it wherever it has no `_` |
| Like.PercentMatchesAll | engine/src/transaction_durable.rs:1920-1940 | `%` matches every text |
| Query.ResortedIff | engine/src/transaction_durable.rs:1900-1918 | The last step of a query, on rows no more than its limit, keeps the rows with their multiplicities and puts them in the order of their texts, stably |
| Query.LastStepKeepsFirst | engine/src/transaction_durable.rs:1900-1918 | The last step keeps as many rows as the limit allows, and drops none that belongs before one it keeps |
| Query.MissingSortsAsNull | engine/src/transaction_durable.rs:1900-1911 | A record without the order field stands where it would with a null there |
| Query.ComparisonMeans | engine/src/transaction_durable.rs:1859-1868 | Each comparison of a text with a literal, by the first byte at which their UTF-8 differs; of less, equal and greater exactly one holds |
| Query.TruthMeans | engine/src/transaction_durable.rs:1869-1873 | A truth value equals a literal or differs from it, and satisfies no other operator |
| Query.KindsMatch | engine/src/transaction_durable.rs:1859-1886 | Values match literals of their own kind only |
| Query.TextClauseSelects | engine/src/transaction_durable.rs:1850-1868 | One comparison with a text selects exactly the records with a text in the field that stands so to the literal |
| Bytes.TextLessIff | engine/src/transaction_durable.rs:1863-1868 | The order of texts by their UTF-8 is that by the first character at which they differ |
| Numbers.ComparisonExactIff | engine/src/transaction_durable.rs:1874-1898 | A stored integer and an integer literal compare as integers, by every operator, iff they are equal or do not round to the same `f64` |
| Numbers.OutOfKindNeverMatches | engine/src/transaction_durable.rs:1874-1879 | A negative integer satisfies no operator with a `u64` literal, and one past the range of an `i64` none with an `i64` literal |
| Numbers.NaNMatches | engine/src/transaction_durable.rs:1880-1898 | A float literal that is no number satisfies "differs" with every number, and nothing else |
| Numbers.IntegerClauseSelects | engine/src/transaction_durable.rs:1850-1898 | Which records one comparison with an integer selects, where it is exact |
| Sorting.SortedSpec | engine/src/transaction_durable.rs:1900-1911 | The stable sort keeps the elements and leaves none behind one that it is less than |
| Sorting.SortedIsStable | engine/src/transaction_durable.rs:1900-1911 | Elements that compare as equal stay in the order they came in |
| IndexQueries.SortIndexQueryRows | engine/src/transaction_durable.rs:956-1051 | It answers iff the query is ordered with a limit and the field has entries, and declines an indexed field only when no record has a key; for a snapshot of the mirrored state the rows are exactly the first matching records in key order. Where it mirrors what is read, they are the first in the order of the integers they hold, ties by id |
| IndexQueries.TopRowsAreFirst | engine/src/transaction_durable.rs:956-1051 | Those rows, said of the integers the records hold: each accepted and with an integer in the range of an `i64`, in that order going up or down, ties by id; one left out comes after all of them, and only where the limit is reached |
| Json.SortKeyIff | engine/src/transaction_durable.rs:1492-1497 | A value is sorted under the integer it holds, if that is in the range of an `i64`, and under nothing else |
| IndexQueries.OrderedQueryRows | engine/src/transaction_durable.rs:291-345 | The rows of the ordered index after the last step of the query |
| KeyOrders.KeyOrderIff | engine/src/transaction_durable.rs:1900-1911 | Over all states whose order field holds values of a pool, all conditions, limits and directions: a query through the ordered index comes back in key order iff no two values of the pool, the first no greater than the second as keys, have texts that stand the other way |
| KeyOrders.ClashReorders | engine/src/transaction_durable.rs:1900-1911 | For any two such values: the index gives the first record and then the second, and the query turns them round |
| KeyOrders.TextOrderIsNotKeyOrder | engine/src/transaction_durable.rs:1900-1911 | Of two records with keys 9 and 10 the index gives 9 first and the query 10 first |
| IndexQueries.CompositeSortIndexQueryRows | engine/src/transaction_durable.rs:1053-1099 | The first matching rows of the bucket the first equality names, declining only where that bucket is empty; those are the first of the whole view when the literal names the bucket of all it matches |
| IndexQueries.CleanLiteralServes | engine/src/transaction_durable.rs:1053-1099 | A string literal without characters to escape names the composite bucket of all records it matches |
| IndexQueries.FirstEqIs | engine/src/transaction_durable.rs:1053-1075 | The clause taken is the first equality of the query; none is taken iff there is none |
| IndexQueries.CleanFirstEqServes | engine/src/transaction_durable.rs:1053-1099 | Where that is with a text that needs no escaping, its bucket holds all rows of the query |
| IndexQueries.KeyServesIff | engine/src/transaction_durable.rs:1721-1731 | A text literal names the bucket of all it matches iff it needs no escaping, or matches nothing |
| IndexQueries.UncleanBucketIsLost | engine/src/transaction_durable.rs:1053-1099 | Where it needs escaping, the bucket it names gives no row at all |
| ExactQueries.IntersectPostings | engine/src/transaction_durable.rs:1101-1124 | The loop answers iff every clause is a string equality with a posting list, and intersects the lists |
| ExactQueries.ExactStringIndexQueryRows | engine/src/transaction_durable.rs:1101-1134 | It answers iff every clause is a string equality with a posting list, with the looked-up ids that are visible and match |
| ExactQueries.ExactPathCompleteIff | engine/src/transaction_durable.rs:1101-1134 | Where it answers, it returns all matching records or none of them; all iff no literal needs escaping or nothing matches |
| ExactQueries.ExactPathLosesItsMatch | engine/src/transaction_durable.rs:1721-1733 | With a newline in one record and a backslash and an n in another, asked for the latter it answers with nothing |
| RowsById.BoundedHeap | engine/src/transaction_durable.rs:1179-1213 | Pushing every candidate and popping the worst keeps the `limit` best ids seen |
| RowsById.HeapIsTop | engine/src/transaction_durable.rs:1179-1213 | The ids a bounded heap keeps, sorted, are the first `limit` of all candidates |
| RowsById.PushIds | engine/src/transaction_durable.rs:1214-1227 | Ids of one posting list are pushed until there are enough: as many distinct ids as there are, or as asked for |
| PrefixQueries.PrefixStringIndexQueryRows | engine/src/transaction_durable.rs:1139-1238 | It declines only where nothing matches. By id: the ordered index's rows when that has entries and there is a limit, else those of the first ids in the scanned range. With no order, or one by another field: as many distinct matching records as there are, or as asked for |
| PrefixQueries.ScanKeys | engine/src/transaction_durable.rs:1824-1848 | The keys visited are exactly those of the range, ascending |
| PrefixQueries.HeapRows | engine/src/transaction_durable.rs:1179-1236 | The rows of the first `limit` ids filed in the range, in id order, that match |
| PrefixQueries.ScanHoldsMatches | engine/src/transaction_durable.rs:1139-1238 | The scanned range holds every match, and only matches when nothing in it leaves the prefix |
| PrefixQueries.PrefixPathExact | engine/src/transaction_durable.rs:1179-1236 | Over a closed range or without a limit, the heap gives exactly the first matches by id |
| PrefixQueries.LimitedPathLosesRows | engine/src/transaction_durable.rs:1179-1213 | Over a range that is not closed, a limit of one can give nothing although a match exists |
| PrefixQueries.PrefixPathExactIff | engine/src/transaction_durable.rs:1179-1236 | Over all records, limits and directions the heap gives the first matches by id iff the prefix has an upper bound or is all U+10FFFF |
| PrefixQueries.DetourIsById | engine/src/transaction_durable.rs:1166-1177 | Where every record carries its id, the ordered index's rows are the first matches by id |
| PrefixQueries.PrefixedFirst | engine/src/transaction_durable.rs:1824-1848 | In the scanned order all keys with the prefix come before all others |
| PrefixQueries.UnorderedRows | engine/src/transaction_durable.rs:1214-1236 | With no order by `id`, stopping when there are enough ids gives exactly as many distinct matching records as there are, or as asked for; under an order by another field these need not be the first in it |
| ContainsQueries.ContainsStringIndexQueryRows | engine/src/transaction_durable.rs:1240-1277 | It declines only where nothing matches or the needle is shorter than a trigram, and else gives the matching rows among the first 8 x limit candidates by id |
| ContainsQueries.GramsHoldMatches | engine/src/transaction_durable.rs:1240-1277 | Intersecting trigram postings never drops a match for a needle of three or more characters |
| ContainsQueries.ContainsPathExactIff | engine/src/transaction_durable.rs:1240-1277 | Over all states and limits, for queries with a given needle and order: after the last step of the query the path has given what looking at every record gives iff the needle has exactly three characters and no order is asked for |
| ContainsQueries.WithinCutOff | engine/src/transaction_durable.rs:1262-1266 | With at most 8 x limit candidates, or without a limit, nothing is lost, whatever the order |
| ContainsQueries.CutOffLosesTheMatch | engine/src/transaction_durable.rs:1262-1266 | For every needle of four characters or more: eight records with all its trigrams and not the needle, before one that has it; asked for one row, the query returns none |
| ContainsQueries.CutOffLosesTheFirst | engine/src/transaction_durable.rs:1262-1266 | For every needle and order: a state in which the query with a limit does not return the first match in that order |
| ContainsQueries.StrayLacksNeedle | engine/src/transaction_durable.rs:1783-1802 | A needle's trigrams, with a character between them that is none of its first four, do not contain it |
| Replication.OutOfOrderIsUnreachable | engine/src/replication.rs:107-137 | No batch at all can raise the out-of-order error |
| Replication.BatchIsAccountedFor | engine/src/replication.rs:107-146 | A batch that goes through is all applied or skipped, and the checkpoint ends at or past every entry |
| Replication.ReplayedBatchIsSkipped | engine/src/replication.rs:107-146 | Delivering a batch again, after any other batch, applies nothing and skips all of it |
| Replication.FetchIsSegment | engine/src/replication.rs:65-73 | A fetch from the checkpoint of a prefix is the stretch of the source right after it, at most as long as asked for |
| Replication.StretchExtends | engine/src/replication.rs:107-146 | A stretch that starts inside what is applied extends it to the stretch's end, or to the first entry refused |
| Replication.DeliveryKeepsStepIff | engine/src/replication.rs:107-146 | A stretch of the source keeps the replica a prefix of it iff it starts no later than the replica stands, or is empty |
| Replication.NextStreamKeepsInv | engine/src/replication.rs:65-146 | Every step of the stream protocol keeps replica, checkpoints and batches in flight consistent with the source |
| Replication.ReplicaIsPrefix | engine/src/replication.rs:65-146 | Under every schedule of appends, fetches from past checkpoints and duplicated, delayed or reordered deliveries, each with entries of its own that are refused, and persisted or not, the applied log is a prefix of the source and the checkpoint its last sequence |
| Replication.RestartKeepsStepIff | engine/src/replication.rs:85-101 | A restart keeps the replica a prefix of the source iff the saved checkpoint is the one in memory |
| Replication.SavedIff | engine/src/replication.rs:107-146 | In every clean run the saved checkpoint is the one in memory iff no delivery has applied anything since the last one that went through |
| Replication.CleanRunIff | engine/src/replication.rs:92-146 | A run is clean iff the replica restarts only where that is so |
| Replication.AppliedOnce | engine/src/replication.rs:92-146 | In such a run no entry is applied twice, whatever is fetched and delivered after the restarts |
| Replication.PollingCatchesUp | engine/src/replication.rs:65-146 | Each round of fetch and apply adds a full batch until the replica holds the whole source |
| Replication.WalStreamSource.FetchSince | engine/src/replication.rs:65-73 | On any log: the reader's error, or the entries after the checkpoint up to the limit; on an ascending log, the stretch after the checkpoint's prefix |
| Replication.WalStreamReplica.Apply | engine/src/replication.rs:107-146 | The loop's state and report on success and on each error. On success the saved checkpoint is the one in memory, at or past every entry of the batch; on an error the saved one is as it was |
| Encoding.RoundTrip | engine/src/encoding.rs:22-156 | Decoding inverts encoding for every byte string |
| Encoding.DecodePrefix | engine/src/encoding.rs:131-156 | The first k codons of an encoding decode to the first floor(3k/4) bytes of the original |
| Encoding.LengthFromCodons | engine/src/query/fetch.rs:213-228 | floor(3c/4) of the codon count is the original length |
| Encoding.DecodedEncodesBack | engine/src/encoding.rs:131-156 | What decodes at all has the asked-for length and encodes back to the symbols it was read from |
| Encoding.EncodedInjective | engine/src/encoding.rs:22-49 | Different byte strings have different codons |
| Encoding.LettersSpell | engine/src/encoding.rs:22-49 | Four letters of an encoding are the base-4 digits of a byte, from the most significant down, three letters to a codon |
| Encoding.FirstInvalidIs | engine/src/encoding.rs:51-86 | The symbol reported is the first that is no digit |
| Encoding.UnpackPacked | engine/src/encoding.rs:40-49 | Packing into codons loses nothing and pads with at most two zeros |
| Encoding.ExpandBytesToSymbolsScalar | engine/src/encoding.rs:31-38 | The loop appends the four base-4 digits of every byte |
| Encoding.EmitBlock | engine/src/encoding.rs:105-124 | Interleaving the four stored registers of a 16-byte block gives its symbols |
| Encoding.ExpandBytesToSymbolsAvx2 | engine/src/encoding.rs:93-128 | The 16-byte-block path computes the same symbols as the scalar loop |
| Encoding.SymbolsToCodons | engine/src/encoding.rs:40-49 | The chunk loop packs three symbols to a codon |
| Encoding.EncodeBytesToCodons | engine/src/encoding.rs:74-82 | Whichever path is taken, the encoding is the same and decodes to the input |
| Encoding.CollectSymbols | engine/src/encoding.rs:135-142 | All symbols in order, or the first that is no base-4 digit |
| Encoding.DecodeCodonsToBytes | engine/src/encoding.rs:131-156 | The decoded bytes, or the first invalid symbol, or too few symbols, in that order of precedence |
| Strands.PayloadRecovered | engine/src/query/fetch.rs:213-228 | A logged payload comes back cut to at most 49151 bytes, which the `u16` codon count can span |
| Strands.PayloadWholeIff | engine/src/processor.rs:44-60 | A logged payload comes back whole iff it is no longer than 49151 bytes |
| Strands.DecodeFieldsHolds | engine/src/query/fetch.rs:265-282 | A value is decoded for a field iff the field is required and some intron of it spans the value |
| Strands.DecodeRequiredFieldValues | engine/src/query/fetch.rs:265-282 | The loop gathers, for every required field, the values its introns span, in intron order |
| Strands.AcceptedCarries | engine/src/query/fetch.rs:316-417 | A clause that verification accepts rests on a value of its field, except an exact one on the signature |
| Strands.VerifiesIff | engine/src/query/fetch.rs:251-417 | A strand verifies iff each clause holds of its signature, for an exact one on that, or of some value of its field |
| Strands.RangeMeans | engine/src/query/fetch.rs:349-363 | Each range operator, by the first byte at which value and operand differ; of below, equal and above exactly one holds |
| Strands.ClauseMeans | engine/src/query/fetch.rs:316-399 | An exact clause asks for its value, and a pattern of a literal and `%` for a text that starts with the literal |
| Strands.SpanGivesBack | engine/src/query/fetch.rs:213-228 | An intron over the codons of a value gives back that value, wherever in the strand they stand |
| Strands.PrefilterIsSound | engine/src/query/fast_match.rs:16-48 | The hash prefilter never drops a strand that verification accepts, when stored hashes are those of the values and no clause compares the signature |
| Strands.WalStrandWellHashedIff | engine/src/processor.rs:44-60 | The stored hash is that of the recovered value iff the payload fits or the two hashes collide |
| Strands.SignatureIsPrefilteredAway | engine/src/query/fast_match.rs:16-38 | A clause on a logged strand's signature passes verification and never the prefilter |
| Strands.PrefilterKeepsIff | engine/src/query/fast_match.rs:16-48 | The prefilter keeps an accepted logged strand that comes back whole iff no clause compares the signature |
| Strands.PrefiltersIff | engine/src/query/fast_match.rs:16-48 | The prefilter keeps a logged strand iff every clause is on its payload, and every exact one on a value of the payload's hash |
| Strands.PayloadVerifiesIff | engine/src/query/fetch.rs:316-417 | A logged strand verifies against one clause on its payload iff what comes back of the payload matches |
| Strands.FoundByItsBytesIff | engine/src/processor.rs:44-60 | A logged payload is found by its own bytes, through prefilter and verification, iff it is no longer than 49151 bytes |
| Dictionaries.CompleteIff | engine/src/query/segment.rs:253-286 | A dictionary is complete iff its field had from 1 to 254 distinct value hashes |
| Dictionaries.CompleteListsAll | engine/src/query/segment.rs:82-90 | A complete dictionary lists exactly the hashes seen |
| Dictionaries.BuildDictionary | engine/src/query/segment.rs:257-283 | The two loops compute the totals and the 254 most frequent entries, ties by hash |
| Dictionaries.ListsMostFrequent | engine/src/query/segment.rs:257-283 | It lists 254 hashes, or all if there are fewer, each with its frequency and under its rank: the most frequent, in that order, ties by hash |
| Segments.TotalIsCount | engine/src/query/segment.rs:257-283 | Its total is the number of times the field was seen |
| Segments.BloomFilter.Add | engine/src/query/segment.rs:28-33 | The filter holds one more value, and its bits are exactly the slots of its values |
| Segments.BloomFilter.MightContainIff | engine/src/query/segment.rs:35-40 | The answer is yes iff every slot of the value is a slot of some added value; for an added value it always is |
| Segments.SegmentMeta.Build | engine/src/query/segment.rs:138-188 | For every tracked field the filter, the numeric bounds and the dictionary are those of everything in the strands |
| Segments.SeeIntron | engine/src/query/segment.rs:162-180 | One intron's effect on the statistics of its field, and on no other's |
| Segments.MembersAreSeen | engine/src/query/segment.rs:162-180 | The filter of a field holds exactly the values decoded from its introns |
| Segments.TalliesAreSeen | engine/src/query/segment.rs:162-180 | The tallies of a field count exactly its value hashes |
| Segments.OutOfBoundsIff | engine/src/query/segment.rs:355-372 | For each of the five operators the bounds rule a segment out iff the field has some number and none that satisfies the clause |
| Segments.SkippedIff | engine/src/query/segment.rs:288-376 | Metadata decides to skip as a function of the strands it was built from, and of the size of its filters |
| Segments.ExactIsKept | engine/src/query/segment.rs:339-353 | An exact clause never rules out a segment that holds its value |
| Segments.ExactSkipsExactly | engine/src/query/segment.rs:322-353 | An exact clause rules a segment out iff its field is tracked and either was seen with 1 to 254 distinct hashes, none of them the value's, or some slot of the value is taken by none of its values |
| Segments.CoversMeans | engine/src/query/segment.rs:28-40 | A filter says yes to a value iff each of its seeded hashes, by the number of slots, is that of a value in it |
| Segments.FieldsAreNames | engine/src/query/segment.rs:162-180 | An intron counts in the tallies, the bounds and the filter of a field iff the two names have the same hash |
| Segments.AcceptedIsSkippedIff | engine/src/query/segment.rs:288-376 | A segment with a strand that verification accepts is skipped iff some range clause on a number finds numbers in its field, none of which satisfies it |
| Segments.PruningIsSound | engine/src/query/segment.rs:288-376 | Where no value of the pool is refused as a number beside one accepted as bytes only, no segment or block with an accepted strand is skipped |
| Segments.PoolLosesNothingIff | engine/src/query/segment.rs:355-372 | Over all segments of logged payloads drawn from a pool a range clause on a number loses nothing iff no two payloads of the pool disagree in that way |
| Segments.NumericRangePruningLoses | engine/src/query/segment.rs:355-372 | Above `10` the payload `9` is accepted as bytes and refused as a number, so its segment is skipped |
| Scan.SplitRangesForParallel | engine/src/query/scan.rs:125-142 | Chunks name the same strands in the same order, and none is empty or too long |
| Scan.ScanStrandsSequential | engine/src/query/scan.rs:152-169 | The nested loops return the prefiltered strands in scope of all ranges, in order |
| Scan.FilterKeeps | engine/src/query/scan.rs:152-169 | Filtering keeps exactly the strands that pass, as often as they come and in their order |
| Scan.ScanStrandsParallel | engine/src/query/scan.rs:172-196 | The parallel scan returns the sequence of the sequential one, for any number of threads |
| Scan.ScanStrands | engine/src/query/scan.rs:198-205 | On either side of the threshold the rows are the same |
| Scan.SegmentRangesForScan | engine/src/query/scan.rs:56-77 | The ranges of the segments whose metadata does not rule them out, in order |
| Scan.CandidateRangesForScan | engine/src/query/scan.rs:79-123 | The ranges left after segment and block pruning, with blocks found by position among the survivors |
| GuidedScans.DescribedFlags | engine/src/query/scan.rs:56-77 | Segment metadata gives the flags that its strands determine |
| GuidedScans.DescribedBlockFlags | engine/src/query/scan.rs:79-123 | Block metadata gives the flags that its strands determine |
| GuidedScans.BlockPruningIff | engine/src/query/scan.rs:84-97 | Over all layouts and scans whose metadata gives these segment flags, the scan is complete iff no segment survives after one that is skipped |
| GuidedScans.MisalignedLoses | engine/src/query/scan.rs:84-97 | One logged strand and one block for each segment, asked for one payload: when a segment survives after one that is skipped, the scan returns fewer strands than there are to find |
| GuidedScans.GuidedScanIsComplete | engine/src/query/scan.rs:79-205 | Over aligned segments: prune by segment and block, prefilter, verify, and what is left is exactly the strands in scope that verify, in order |
| GuidedScans.VerifyClauses | engine/src/query/fetch.rs:400-417 | The loop keeps exactly the strands that verify, in order |
| GuidedScans.WantedMeans | engine/src/query/scan.rs:49-54 | What a fetch looks for: strands of the collection asked for, if one is, of which every clause holds |
| GuidedScans.FetchGuided | engine/src/query/fetch.rs:718-745 | Metadata objects, pruning, scan and verification in one: the result is exactly the strands in scope that verify, in pool order, without block metadata always, and with it where a segment is pruned only with all that follow it |
| GuidedScans.SegmentScanIsComplete | engine/src/query/scan.rs:56-77 | With segment metadata alone, prune, prefilter and verify gives exactly the strands in scope that verify, however the skipped segments lie |
| GuidedScans.PrefilterThenVerify | engine/src/query/fetch.rs:400-417 | Prefiltering before verifying changes nothing |
| Transfer.RefusalIsCleanIff | engine/src/transfer.rs:122-195 | A refused packet leaves the catalog as it was iff it was refused before its mutation was tried or its collection existed; else an empty collection remains |
| Transfer.AbsorbTwice | engine/src/transfer.rs:127-132 | A packet absorbed again is a replay without effect |
| Transfer.SortedPackets | engine/src/transfer.rs:234-239 | Sorting keeps the packets and orders them by origin, sequence and id |
| Transfer.PlanGoesUp | engine/src/transfer.rs:234-239 | A plan goes through the origins in the order of their names, through the packets of one by number going up, and through those of one number by id |
| Transfer.MutateMeans | engine/src/transfer.rs:136-185 | A field is added iff it is not there, dropped iff it is, renamed iff it is there and its new name is not; every other field is as it was |
| Transfer.MutationsUndone | engine/src/transfer.rs:136-185 | Dropping a field that was added, and renaming one back, restores the fields |
| Transfer.ValidateMeans | engine/src/transfer.rs:197-208 | A packet is valid iff its collection, origin and id each have a character that is no white space; the first without one is reported |
| SyncOrders.OutOfOrderIff | engine/src/transfer.rs:127-135 | Absorbing a plan ends out of order iff it comes, with everything before accepted, to a valid packet not seen before that shares origin and number with an earlier one |
| SyncOrders.OwnNumbersStayInOrder | engine/src/transfer.rs:217-260 | It never does where no two packets share origin and number, whatever their ids |
| SyncOrders.RefusedWhere | engine/src/transfer.rs:246-260 | A batch is refused where, and as, its first refused packet is |
| Transfer.DedupEffect | engine/src/transfer.rs:246-260 | Repeats in a sorted batch change neither the catalog nor the outcome |
| Transfer.NodesConverge | engine/src/transfer.rs:217-260 | Nodes with one catalog, given the same packets in any order and multiplicity, end with the same catalog and the same success or error |
| Transfer.ReplanIsEmpty | engine/src/transfer.rs:217-241 | After a batch went through, planning the same packets again plans nothing |
| Transfer.LateDeliveryIff | engine/src/transfer.rs:217-260 | Of two syncs that both succeed, the second applies a packet iff the first left it applied or above the mark of its origin; else it is dropped |
| Transfer.LateDeliveryIsDropped | engine/src/transfer.rs:217-260 | Sequence 2 of an origin and then sequence 1: both syncs succeed and the second applies nothing |
| SplitSyncs.SyncApplies | engine/src/transfer.rs:217-260 | Of packets with ids of their own, a sync that succeeds applies exactly those it plans |
| SplitSyncs.SplitAppliesAllIff | engine/src/transfer.rs:217-260 | Two syncs that succeed apply what one sync of all the packets applies iff what comes only second has, in each origin, later numbers than what came first |
| SplitSyncs.SplitConverges | engine/src/transfer.rs:217-260 | They end with the same catalog, and the same success or error, when what comes only second also stands behind what came first in the order of a plan |
| Transfer.AbsorbAllMonotone | engine/src/transfer.rs:187-190 | Applied packets and high-water marks only grow, and a batch that went through has all its packets applied |
| Transfer.BufferedCatchup | engine/src/transfer.rs:290-306 | A node that catches up from its partition buffer ends where one that got the packets directly does |
| Transfer.SchemaCatalog.AbsorbTransferPacket | engine/src/transfer.rs:122-195 | The catalog and the answer for every branch |
| Transfer.SchemaCatalog.AbsorbSyncBatch | engine/src/transfer.rs:246-260 | The loop absorbs packets up to the first refusal and counts applied and replayed ones |
| Transfer.SchemaCatalog.PlanSyncPackets | engine/src/transfer.rs:217-241 | The packets not applied and above their origin's mark, in the order of origins, within one origin by number going up, and then by id |
| Transfer.PartitionBuffer.BufferPartitionPackets | engine/src/transfer.rs:290-298 | The buffer holds the old and the new packets, in order |
| Overlays.MergeFieldMap | engine/src/overlay.rs:191-201 | Every collection has the fields of both maps |
| Overlays.OverlayRegistry.DefineOverlay | engine/src/overlay.rs:121-123 | A definition replaces one of the same name |
| Overlays.OverlayRegistry.ResolveOverlay | engine/src/overlay.rs:129-132 | Not found for an undefined name, else what the name's `extends` trail says |
| Overlays.OverlayRegistry.ResolveOverlayInner | engine/src/overlay.rs:144-188 | The recursion ends on every registry, answers as the specification does, and gives back the visiting set when it succeeds |
| Overlays.AnswerFollows | engine/src/overlay.rs:144-188 | The recursion's answer is the verdict of the trail: the union along it, its missing parent, or the name it comes back to |
| Overlays.ResolutionIsDecided | engine/src/overlay.rs:144-188 | Every defined name has exactly one trail |
| Overlays.CycleIffRevisits | engine/src/overlay.rs:154-166 | A cycle is reported iff the chain comes back to a name on it, a missing parent iff it ends at one |
| Overlays.LeafNames | engine/src/overlay.rs:177-178 | A resolved overlay has the leaf's name and access |
| Overlays.UnionCovers | engine/src/overlay.rs:179-180 | A resolved overlay covers exactly the collections of the definitions on the trail |
| Overlays.UnionAllows | engine/src/overlay.rs:179-180 | A resolved overlay allows exactly the mutations of the definitions on the trail |
| Overlays.UnionIncludes | engine/src/overlay.rs:182-184 | A resolved overlay includes exactly the fields that definitions on the trail include or add |
| Overlays.UnionExcludes | engine/src/overlay.rs:182-184 | A resolved overlay excludes exactly the fields that definitions on the trail exclude |
| Overlays.VisibleIff | engine/src/overlay.rs:76-96 | Who sees a field, in terms of the definitions on the trail: coverage, and full access at the leaf or an inclusion without any exclusion |
| Overlays.ChildrenInherit | engine/src/overlay.rs:144-188 | A child can do and reach what its parent can, and one with partial access sees nothing an ancestor excludes |
| Overlays.MaskRecordForOverlay | engine/src/privacy.rs:22-38 | Masking keeps exactly the visible fields with their values, and refuses exactly the collections out of reach |
| Overlays.MaskRecordsForOverlay | engine/src/privacy.rs:41-50 | A batch is refused iff it has a record and its collection is out of reach |

## Left out

- CommitInner: requires room in the log for the sequence numbers of the write set; the `u64` overflow of the sequence counter is not modelled.
- LogOne: an append writes its whole frame; one that fails half-way is modelled as a crash there (`CrashInsideCommit`), not as a commit that goes on.
- ComparisonExactIff: how integers round to an `f64` is a parameter that keeps their order, and a float is the number its bits stand for.
- OrderedQuery: is the case in which the client gives an order and the ordered index is the path taken; the cost estimates that choose among the paths, and the order that a limited query without one is given for its path only, are not modelled.
- SortIndexQueryRows: reads rows from the map of records its transaction sees, where the engine reads them one by one; `MergeUp` and `MergeDown` inherit this.
- SecondaryIndexes.Rebuild: the four maps of a sort field are one record, and the trigram back-map is flat; the lists hold the same ids.
- FetchGuided: speaks of strands, where the scan returns their signatures and the caller looks the strands up again; the order and the limit that follow verification, and the index paths of a fetch, are not modelled.
- SplitRangesForParallel: ranges are those of one pool; work stealing among threads is an ordered concatenation of chunks.
- ReplicaIsPrefix: the source log is not truncated during a run, and the replica restarts only while its saved checkpoint is current; `RestartKeepsStepIff` says when a restart is harmless.
- WalStreamReplica.Apply: writing the strand is a predicate that accepts or refuses the entry, and persisting the result a flag.
- ExpandBytesToSymbolsAvx2: shifts and masks of a register lane are division and remainder on its byte.
- BuildDictionary: sums are unbounded where the engine's are `u32`.
- Real files, memory maps, `fsync` and strand storage: a file is a byte string, a failing strand write, flush or sync is a parameter, and a commit's writes to the strand pool are not followed.
- Bulk inserts, and queries that no index answers: they call what is modelled here, or scan every visible record.
- The complement, telomere, tags and times of a strand, and its CRC side files.
- Sessions, authentication, the HTTP server, SDKs and translation from SQL and Mongo text.
- Transactions begun for reads, or for an insert that is refused, and never finished: they only hold compaction back.
