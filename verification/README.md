# Private-lookup servers: verified model

This project models the servers and clients of a private-information-retrieval system for Zcash wallets, and proves
that they do what they are for.

* The **witness side** keeps the Orchard note commitment tree, serves its leaves as database rows together with a
  broadcast of inner nodes, and lets a wallet rebuild a Merkle path from one row (sections 3.8 and 4.9 of the Zcash
  Protocol Specification; levels are numbered from the leaf upward, as in the code).
* The **nullifier side** keeps spent nullifiers in a bucketed hash table with per-block rollback and eviction, and lets
  a wallet look one up by scanning one bucket.
* A **chain tracker** and a **follow loop** drive both through extensions and reorganisations of the chain.

## Shape of the model

Every stateful component appears twice: as a value with functions on it (`Tree`, `Table`, `State`, a window
`seq<Link>`), on which the theorems are stated, and in the source's own form (classes `CommitmentTreeDb`,
`HashTableDb`, `ChainTracker`, in-place arrays, loops with cursors and buffers), each method proved to act as the
function. Files build on each other in this order:

| files | content |
|---|---|
| `Bytes`, `Geometry`, `Merkle` | little-endian codec, tier sizes, hash trees over any row of cells |
| `CommitmentTree`, `CommitmentTreeDb`, `TreeRuns` | the tree as value and as object; runs with rollback, build and restart |
| `WitnessClient`, `WitnessTheorems` | the wallet's reconstruction; completeness, soundness, flat tree |
| `TreeSnapshot`, `TreeSnapshotIo` | tree snapshot format, writer and reader |
| `SpendTypes`, `SpendClient`, `NullifierTable`, `NullifierRemoval`, `HashTableDb` | entries, bucket scan, the table as value and as object |
| `NullifierLookup`, `NullifierCapacity`, `NullifierRuns`, `NullifierLeaks` | lookup through the bytes, when inserts succeed, whole runs, what a failed insert leaves |
| `NullifierSnapshot`, `NullifierSnapshotIo`, `NullifierRestart` | table snapshot format, writer and reader, restart |
| `Parsers`, `ChainTracker`, `FollowLoop`, `FollowLockstep`, `FollowTips`, `FollowServer` | compact blocks, the tracker, the combined follow loop |
| `FollowTable`, `FollowSize` | what a block does to the table's heights and size, and the size along runs |
| `FollowGaps`, `FollowPositions`, `FollowHistory`, `FollowWindow` | which blocks the loop loses, positions recorded after a gap, what a block leaves while it is recorded, the loop's tree against the flat tree |
| `WindowBootstrap`, `WitnessFollow`, `WitnessGaps` | windowed start, event-driven follow, when a gap is noticed |
| `SyncDemand`, `SyncPlan`, `FollowStart` | first sync, and how the follow loop comes to start in lockstep |
| `EndToEnd`, `Examples` | both databases together; inputs at which promised properties fail |

Conventions. The node hash (`combine`) and the empty leaf are fields of a `Hasher` parameter, and the snapshot checksum
is a parameter too: every theorem holds for all of them. A private query is a plain row lookup. A fetch from the
light-wallet server is a function parameter or a sequence of blocks. `Inv` is what every table operation keeps, failed
inserts included; `Clean` adds that no entry was leaked by a failed insert. A soundness statement cannot assume an
injective 32-byte hash, because none exists, so it concludes "the path is the tree's own, or here is an explicit pair of
colliding inputs".

## What the proofs found

* **A failed insert is not undone.** `nullifier/README.md:86` says that a block that overflows a bucket is not
  inserted. The code returns early and leaves the entries it has already placed (`nullifier/hashtable-pir/src/lib.rs:98-116`).
  `FailedInsertUnchangedIff` says exactly when the table is unchanged. `FailedInsertLeaks` says that every entry placed
  before the overflow belongs to no block, and that wallets find it after any later run. `CrowdLeaks` is a block of 113
  nullifiers of one bucket, of which 112 leak.
* **The window does not slide.** `witness/README.md:342` describes window eviction; the code caps the shard count and
  never moves the offset. What clients are served is exactly the flat tree over the leaves before the end of the 32nd
  window shard (`WitnessMatchesFlatTree`). With the default limit that is less than the tree as soon as a leaf follows
  the shard that was being filled at the start (`BootstrapIsFullTree`). `ServedRootExact` says when the root that
  clients see is still the tree's root, up to a collision among the hashes that make up these two roots.
  `LongTreeMisserved` is a tree of 33 shards whose served root is another.
* **A found fork point is never used.** A loop that asks for the height after its tip cannot receive a genuine block
  whose parent is deeper in its window (`NextHeightNeverFindsFork`). The combined loop therefore keeps its recorded
  blocks if and only if the next block is a child of its tip (`KeepsBlocksIff`); over a batch, if and only if the batch
  is one chain (`BatchLosesNothingIff`). Otherwise it drops the whole window, and no later block of the run ever fills
  the dropped heights (`ReorgLeavesGap`). `NephewDropsBoth` is such a block.
* **After a gap positions are ahead of the tree.** The combined loop has no size check. Given the canonical blocks
  with right metadata, each position that it records after such a reorganisation is ahead of the place in its own tree
  by the number of skipped commitments (`PositionsAfterGapIff`).
* **The size check notices the gap only if it matters.** The standalone witness server stops at the block after the
  reorganisation if and only if the blocks it skipped hold a commitment (`GapIsCaughtIff`).
* **A window that starts at height 0 is not dropped** by a reorganisation past it, and any other window is
  (`WindowDroppedIff`); `GroundUnlinked` is the tracker that starts from two empty databases.
* **The size check on the first synced block can never fail**; from the second block on a wrong start is always caught
  (`SyncSucceedsIff`).
* **Positions repeat.** The client cuts the shard index to 32 bits, so a query for a position is answered as one for
  that position modulo 2^48 (`PositionsRepeat`, `AnyPosition`). `AliasAnswered` is a tree of one leaf that answers for
  position 2^48.
* **Unknown positions are recorded as 0.** With neither metadata nor a prior size every nullifier of a block gets
  position 0, whatever its transaction (`UnknownPositions`).

## Model

| member | source | states |
|---|---|---|
| Geometry.DecomposeExact | witness/witness-types/src/lib.rs:81-91 | any position splits into shard, sub-shard and leaf within bounds, which rebuild it modulo 2^48; the physical row is the row of that sub-shard in the window |
| Merkle.PrecomputeEmptyRoots | witness/commitment-tree-db/src/lib.rs:472-484 | the loop's table holds the root of an empty tree at each of the 33 levels |
| Merkle.CombinePairs | witness/commitment-tree-db/src/lib.rs:414-430 | one level of the bottom-up loop replaces nodes by their parents, node for node |
| Merkle.CompleteSubtreeRoot | witness/commitment-tree-db/src/lib.rs:414-430 | the level-by-level loop over a full row returns the node of the recursive reference tree |
| Merkle.SparseRootIsNode | witness/commitment-tree-db/src/lib.rs:434-460 | the recursion that prunes empty halves with precomputed roots equals the recursive reference tree on the padded row, for every row length and size |
| Merkle.Graft | witness/commitment-tree-db/src/lib.rs:311-317 | a tree over subtree roots equals the tree over their leaves |
| Merkle.Binding | witness/commitment-tree-db/src/lib.rs:487-491 | equal roots over different leaves exhibit two different inputs with the same hash, at a node below that root |
| CommitmentTree.ShardCounts | witness/commitment-tree-db/src/lib.rs:127-155 | in an aligned tree the populated shards are those before the window plus the local ones, and at most 32 are local exactly when the leaves fit 32 shards |
| CommitmentTree.RowBytesAt | witness/commitment-tree-db/src/lib.rs:327-396 | row r of the database bytes is the 256 padded leaves of sub-shard r |
| CommitmentTree.AppendCoherent | witness/commitment-tree-db/src/lib.rs:190-207 | after an append every cached root still belongs to a non-empty sub-shard and is the root of its leaves |
| CommitmentTree.RollbackCoherent | witness/commitment-tree-db/src/lib.rs:210-231 | the same after a rollback |
| CommitmentTree.AppendKeepsCache | witness/commitment-tree-db/src/lib.rs:190-207 | an append costs the cache exactly the roots of the sub-shards that got a leaf |
| CommitmentTree.RollbackKeepsCache | witness/commitment-tree-db/src/lib.rs:210-231 | a rollback keeps exactly the cached roots of sub-shards before the new frontier's |
| CommitmentTree.WarmHoldsRoots | witness/commitment-tree-db/src/lib.rs:350-381 | after a build the cache holds the reference root of every sub-shard with leaves, and no other |
| CommitmentTree.DatabaseTail | witness/commitment-tree-db/src/lib.rs:327-396 | past the window's rows the database is zero |
| CommitmentTree.TieredRootIsFlat | witness/commitment-tree-db/src/lib.rs:265-317 | sub-shards, shards and cap compose to the plain depth-32 Merkle root of the leaves padded with the empty leaf |
| CommitmentTree.WindowedRootIsFlat | witness/commitment-tree-db/src/lib.rs:286-317 | with right prefetched roots a windowed tree has the root of the full leaf list |
| CommitmentTree.WindowMoves | witness/commitment-tree-db/src/lib.rs:190-231 | whatever is appended or rolled back inside it, a right window stays the window of the leaves before the offset followed by its own |
| CommitmentTree.MissingRoots | witness/commitment-tree-db/src/lib.rs:286-308 | prefetched roots that are missing count as those of empty shards |
| CommitmentTreeDb.CommitmentTreeDb.WithOffset | witness/commitment-tree-db/src/lib.rs:95-109 | a new tree is empty at the given aligned offset, with an empty cache |
| CommitmentTreeDb.CommitmentTreeDb.AppendCommitments | witness/commitment-tree-db/src/lib.rs:190-207 | adds leaves and one record, drops exactly the cached roots of touched sub-shards, keeps the cache coherent |
| CommitmentTreeDb.CommitmentTreeDb.RollbackTo | witness/commitment-tree-db/src/lib.rs:210-231 | removes the trailing blocks above the height with their leaves, drops cached roots from the new frontier on, keeps the cache coherent |
| CommitmentTreeDb.CommitmentTreeDb.SubshardLeaves | witness/commitment-tree-db/src/lib.rs:241-262 | the 256 leaves of a sub-shard, padded with the empty leaf |
| CommitmentTreeDb.CommitmentTreeDb.SubshardRoots | witness/commitment-tree-db/src/lib.rs:265-283 | each of a shard's 256 roots is the reference node over its own leaves |
| CommitmentTreeDb.CommitmentTreeDb.ShardRoots | witness/commitment-tree-db/src/lib.rs:286-308 | prefetched roots before the window, reference nodes inside it, one for every populated shard |
| CommitmentTreeDb.CommitmentTreeDb.TreeRoot | witness/commitment-tree-db/src/lib.rs:311-317 | the pruned recursion over the cap returns the reference root |
| CommitmentTreeDb.CommitmentTreeDb.BuildSubshard | witness/commitment-tree-db/src/lib.rs:350-381 | a cached or computed root is the reference root; the cache changes in that slot only |
| CommitmentTreeDb.CommitmentTreeDb.BuildPirDbAndBroadcast | witness/commitment-tree-db/src/lib.rs:327-396 | the cached, incremental build returns exactly the uncached database and broadcast, and leaves the cache warm and coherent |
| TreeRuns.RunHoldsSurvivors | witness/commitment-tree-db/src/lib.rs:190-231 | after any interleaving of appends, rollbacks, builds and restarts the tree holds exactly the surviving blocks' leaves and records, and its cache is coherent |
| TreeRuns.RunEqualsReplay | witness/commitment-tree-db/src/lib.rs:190-396 | a reorganised tree has the leaves, records, root, database and broadcast of a fresh tree fed only the surviving blocks |
| WitnessClient.ParseLeaves | witness/witness-client/src/reconstruct.rs:134-153 | a row long enough decodes to its 256 leaves in order, a shorter one is an error |
| WitnessClient.ExtractSiblings | witness/witness-client/src/reconstruct.rs:68-101 | the in-place loop writes, for each level of its tier, the sibling of the ancestor, and touches no other cell |
| WitnessClient.ComputeRootFromPath | witness/witness-client/src/reconstruct.rs:103-117 | the loop folds leaf and siblings upward by the bits of the position |
| WitnessClient.ReconstructWitness | witness/witness-client/src/reconstruct.rs:21-66 | the imperative reconstruction equals the three-tier specification, errors included, for any shard of the window |
| WitnessClient.GetWitness | witness/witness-client/src/lib.rs:102-179 | positions outside the window are refused, with the shard index cut to 32 bits; otherwise the right row is fetched and reconstructed, for any position |
| WitnessTheorems.TreeNodeStep | witness/commitment-tree-db/src/lib.rs:265-317 | along every served path each ancestor is the hash of its two children, across all tier boundaries |
| WitnessTheorems.WitnessComplete | witness/witness-client/src/reconstruct.rs:21-117 | from an honest server's row and broadcast the client succeeds exactly for positions served, its 32 siblings are the tree's own nodes, and its root is the root served |
| WitnessTheorems.ServedRootIsRoot | witness/commitment-tree-db/src/lib.rs:311-317 | with at most 32 local shards the root served is `tree_root()` |
| WitnessTheorems.ServedRootExact | witness/commitment-tree-db/src/lib.rs:142-155 | past 32 local shards the served root is `tree_root()` if and only if all leaves beyond are the empty leaf, unless two different inputs hashed for these roots collide |
| WitnessTheorems.WitnessMatchesFlatTree | witness/witness-client/src/reconstruct.rs:21-117 | in a right window, sibling l is node (p >> l) xor 1 at level l of the flat tree over the leaves that clients see, and the anchor root is its root; clients see all leaves if and only if at most 32 shards are local |
| WitnessTheorems.WitnessSound | witness/witness-client/src/reconstruct.rs:103-117 | any leaf and 32 siblings that reach the served root are the tree's own, or exhibit a hash collision on the path |
| WitnessTheorems.OutsideIsRefused | witness/witness-client/src/lib.rs:102-113 | a query is refused if and only if the position's shard, modulo 2^32, is outside the window; the refusal names the position and both ends |
| WitnessTheorems.PositionsRepeat | witness/witness-types/src/lib.rs:81-91 | a query for any position is answered as one for that position modulo 2^48, errors included |
| WitnessTheorems.AnyPosition | witness/witness-client/src/lib.rs:102-179 | for every position an honest server gives an answer if and only if the position modulo 2^48 is served, and the anchor is the served root |
| TreeSnapshot.Decode | witness/commitment-tree-db/src/snapshot.rs:100-371 | whatever bytes the decoder accepts, of any version, the block counts sum to the number of leaves |
| TreeSnapshot.SnapshotRoundTrip | witness/commitment-tree-db/src/snapshot.rs:32-144 | decoding an encoded tree restores leaves, records, offset, prefetched roots and cache |
| TreeSnapshot.CacheRoundTrip | witness/commitment-tree-db/src/snapshot.rs:243-317 | writing the sparse cache entries into an empty cache rebuilds every slot |
| TreeSnapshot.Version1Decodes | witness/commitment-tree-db/src/snapshot.rs:146-186 | the version 1 layout of a tree that starts at leaf 0 decodes to it, with an empty cache |
| TreeSnapshot.Version2Decodes | witness/commitment-tree-db/src/snapshot.rs:188-241 | the version 2 layout of a windowed tree decodes to it, with an empty cache |
| TreeSnapshot.Refused | witness/commitment-tree-db/src/snapshot.rs:100-144 | too little data, a wrong checksum and an unknown version are refused in this order, each by its own error, and nothing else by these |
| TreeSnapshot.AcceptedSize | witness/commitment-tree-db/src/snapshot.rs:146-318 | an accepted tree has the size, modulo 2^64, and the number of blocks that the header announces |
| TreeSnapshot.HeaderLayout | witness/commitment-tree-db/src/snapshot.rs:1-19 | the header's fields stand at fixed offsets, and prefetched roots, block records, leaves and cache entries follow in this order |
| TreeSnapshot.BlockLayout | witness/commitment-tree-db/src/snapshot.rs:69-73 | block record k is 44 bytes: height, hash, number of commitments |
| TreeSnapshot.CacheEntryLayout | witness/commitment-tree-db/src/snapshot.rs:80-92 | cache entry k is 36 bytes: slot and root |
| TreeSnapshot.EntriesAscend | witness/commitment-tree-db/src/snapshot.rs:80-92 | cache entries are written in strictly ascending order of slot |
| TreeSnapshot.LastEntryCounts | witness/commitment-tree-db/src/snapshot.rs:290-310 | of two cache entries for one slot the later counts, and a slot out of range is skipped |
| TreeSnapshotIo.ToSnapshot | witness/commitment-tree-db/src/snapshot.rs:32-98 | the buffer-appending writer produces the specified bytes |
| TreeSnapshotIo.FromSnapshot | witness/commitment-tree-db/src/snapshot.rs:100-371 | the cursor-based reader of versions 1 to 3 returns what the format specifies, with the same error in the same case |
| TreeSnapshotIo.ReadBlockRecords | witness/commitment-tree-db/src/snapshot.rs:320-350 | reads the records and the sum of their counts, or reports truncation |
| SpendTypes.EntryLayout | nullifier/spend-types/src/lib.rs:53-89 | an entry's first 32 bytes are its nullifier and the other nine decode to its metadata |
| SpendTypes.EntryFields | nullifier/spend-types/src/lib.rs:53-60 | the nine bytes after the nullifier are height, position and count at their offsets |
| SpendTypes.BucketBytes | nullifier/spend-types/src/lib.rs:18-21 | the bucket is the first byte plus 256 times the low six bits of the second |
| SpendTypes.EveryBucketIsUsed | nullifier/spend-types/src/lib.rs:18-21 | each of the 16,384 buckets is that of a real nullifier, whatever its other 30 bytes |
| SpendTypes.EntryRoundTrip | nullifier/spend-types/src/lib.rs:53-76 | `from_bytes` undoes `to_bytes` |
| SpendClient.ScanFindsEntry | nullifier/spend-client/src/lib.rs:193-204 | scanning the bytes of a row finds exactly its first entry with the nullifier |
| SpendClient.ScanIgnoresExcess | nullifier/spend-client/src/lib.rs:193-204 | bytes past the bucket do not change the answer |
| SpendClient.ScanShortRow | nullifier/spend-client/src/lib.rs:193-204 | in a row cut short the whole entries are scanned all the same |
| NullifierTable.PlaceAllOk | nullifier/hashtable-pir/src/lib.rs:98-116 | placed entries are the nullifiers in order, in distinct slots that were empty, in the right bucket; every other slot is as before |
| NullifierTable.EmptyTableOk | nullifier/hashtable-pir/src/lib.rs:79-86 | a new table satisfies the invariant and has no leaks |
| NullifierTable.InsertAddsBlock | nullifier/hashtable-pir/src/lib.rs:89-123 | a successful insert of a fresh block adds exactly that block to the abstract table, raises the count by its length and keeps slot ownership |
| NullifierTable.FailedInsertInv | nullifier/hashtable-pir/src/lib.rs:98-116 | a failed insert keeps the invariant |
| NullifierTable.InsertKeepsMarks | nullifier/hashtable-pir/src/lib.rs:44-72 | an insert keeps every stored entry below its bucket's high-water mark |
| NullifierTable.ClearKeepsMarks | nullifier/hashtable-pir/src/lib.rs:126-157 | clearing slots lowers no high-water mark |
| NullifierRemoval.RemoveDropsBlock | nullifier/hashtable-pir/src/lib.rs:126-157 | removing any block, in any order, takes exactly it out, zeroes its slots and leaves every other slot unchanged |
| NullifierRemoval.RollbackOutcome | nullifier/hashtable-pir/src/lib.rs:126-143 | rolling back a hash that is not stored is the not-found error and changes nothing; a stored one succeeds and takes its block out |
| NullifierRemoval.InsertThenRollback | nullifier/hashtable-pir/src/lib.rs:89-143 | insert followed by rollback restores every entry, both maps and the count |
| NullifierRemoval.CountIsSum | nullifier/hashtable-pir/src/lib.rs:89-166 | the entry count is the sum of the record lengths, or larger when entries leaked |
| NullifierRemoval.EvictionMinimal | nullifier/hashtable-pir/src/lib.rs:146-166 | eviction removes exactly the blocks below some height; what stays fits the target or is nothing, and keeping any lower block would exceed it |
| NullifierRemoval.EvictionKeepsLater | nullifier/hashtable-pir/src/lib.rs:146-166 | the blocks that stay are untouched and the count drops by exactly those that go |
| HashTableDb.FindFreeSlot | nullifier/hashtable-pir/src/lib.rs:44-51 | the lowest empty slot, or none when the bucket is full |
| HashTableDb.HashTableDb.InsertBlock | nullifier/hashtable-pir/src/lib.rs:89-123 | the loops over nullifiers and slots do what the insert function says, including the partial effect of a full bucket |
| HashTableDb.HashTableDb.RollbackBlock | nullifier/hashtable-pir/src/lib.rs:126-143 | removal by hash, with the unknown-hash errors |
| HashTableDb.HashTableDb.EvictOldestBlock | nullifier/hashtable-pir/src/lib.rs:146-157 | removes the block of least height and returns it, or none |
| HashTableDb.HashTableDb.EvictToTarget | nullifier/hashtable-pir/src/lib.rs:160-166 | the loop ends and performs the eviction function |
| HashTableDb.HashTableDb.Contains | nullifier/hashtable-pir/src/lib.rs:169-172 | the server's lookup answers as the wallet's scan of the published bytes |
| HashTableDb.HashTableDb.ToPirBytes | nullifier/hashtable-pir/src/lib.rs:176-184 | the nested loops write the rows of all buckets in order |
| HashTableDb.HashTableDb.LatestBlock | nullifier/hashtable-pir/src/lib.rs:198-204 | height and hash of the block of greatest height, or none |
| NullifierLookup.RowAt | nullifier/hashtable-pir/src/lib.rs:176-184 | row b of the published bytes is the entries of bucket b |
| NullifierLookup.LookupReadsRow | nullifier/spend-client/src/lib.rs:82-108 | a lookup depends on one row alone, the one that the nullifier's first two bytes name |
| NullifierLookup.LiveInRow | nullifier/hashtable-pir/src/lib.rs:98-116 | each nullifier of a live block stands in the bucket that its first two bytes name |
| NullifierLookup.InsertRollbackBytes | nullifier/hashtable-pir/src/lib.rs:89-143 | insert followed by rollback restores the published bytes, byte for byte |
| NullifierLookup.LookupComplete | nullifier/spend-client/src/lib.rs:193-204 | what a live block inserted is always found, leaks or not |
| NullifierLookup.LookupExact | nullifier/spend-client/src/lib.rs:193-204 | without leaks, the wallet finds a nullifier if and only if some live block inserted it, and reads that block's height, position and action count |
| NullifierCapacity.RoomIsCapacity | nullifier/hashtable-pir/src/lib.rs:89-166 | in each bucket, empty slots and nullifiers of live blocks add up to the capacity |
| NullifierCapacity.InsertSucceedsIff | nullifier/hashtable-pir/src/lib.rs:98-116 | an insert succeeds if and only if no bucket would have to hold more than 112 nullifiers |
| NullifierCapacity.FailedInsertUnchangedIff | nullifier/hashtable-pir/src/lib.rs:98-116 | a failed insert leaves the table unchanged if and only if the bucket of the first nullifier was full before |
| NullifierCapacity.OverflowedBucket | nullifier/hashtable-pir/src/lib.rs:98-116 | the bucket that a failed insert names is one that live blocks and the new block together overfill |
| NullifierRuns.Run | nullifier/hashtable-pir/src/lib.rs:89-166 | after any run of inserts, rollbacks and evictions the table represents exactly the blocks that a plain map of blocks holds |
| NullifierRuns.ApplyInv | nullifier/hashtable-pir/src/lib.rs:89-166 | every operation on real and new blocks keeps the invariant, overflowing inserts included |
| NullifierRuns.SlotOwnership | nullifier/hashtable-pir/src/lib.rs:89-157 | a slot is non-empty if and only if a live block owns it, exactly one and once, in the bucket of its nullifier; all others are zero |
| NullifierRuns.LookupAfterRun | nullifier/spend-client/src/lib.rs:193-204 | lookup and count after any run, in terms of the plain map alone |
| NullifierRuns.EvictionReachesTarget | nullifier/hashtable-pir/src/lib.rs:160-166 | after any run eviction brings the count to the target |
| NullifierLeaks.LeakStays | nullifier/hashtable-pir/src/lib.rs:89-166 | an entry that no block owns stays in its slot through every later insert, rollback and eviction |
| NullifierLeaks.FailedInsertLeaks | nullifier/hashtable-pir/src/lib.rs:98-116 | each nullifier placed before the overflow belongs to no recorded block and is found by wallets after any later run |
| NullifierSnapshot.SnapshotRoundTrip | nullifier/hashtable-pir/src/snapshot.rs:10-176 | decoding an encoded table restores both maps, the count and every entry |
| NullifierSnapshot.RebuiltIndex | nullifier/hashtable-pir/src/snapshot.rs:118-140 | entering the records one by one rebuilds the block index and its inverse |
| NullifierSnapshot.HeaderLayout | nullifier/hashtable-pir/src/snapshot.rs:10-26 | the header's fields stand at fixed offsets, and block records and rows follow |
| NullifierSnapshot.RecordLayout | nullifier/hashtable-pir/src/snapshot.rs:28-37 | a record is height, hash, number of slots and the slots |
| NullifierSnapshot.SlotLayout | nullifier/hashtable-pir/src/snapshot.rs:32-36 | slot k is six bytes: bucket, slot and a zero |
| NullifierSnapshot.IndexInOrder | nullifier/hashtable-pir/src/snapshot.rs:27-37 | all records are written, each once, in strictly ascending order of height |
| NullifierSnapshot.LastRecordCounts | nullifier/hashtable-pir/src/snapshot.rs:118-140 | of two records of one height the later counts |
| NullifierSnapshot.Refused | nullifier/hashtable-pir/src/snapshot.rs:52-110 | too little data, a wrong checksum, another magic number and another version are refused in this order, each by its own error, and nothing else by these |
| NullifierSnapshotIo.ToSnapshot | nullifier/hashtable-pir/src/snapshot.rs:10-50 | the writer produces the specified bytes, records in ascending height |
| NullifierSnapshotIo.Parse | nullifier/hashtable-pir/src/snapshot.rs:52-176 | the cursor-based reader returns what the format specifies, with the same error in the same case |
| NullifierSnapshotIo.FromSnapshot | nullifier/hashtable-pir/src/snapshot.rs:52-176 | the restored object has the decoded value |
| NullifierRestart.SameStep | nullifier/hashtable-pir/src/lib.rs:89-166 | every operation acts alike on tables that differ only in their high-water marks |
| NullifierRestart.RestartUnnoticed | nullifier/hashtable-pir/src/snapshot.rs:160-176 | after a restart and any further operations, overflowing inserts included and from leaking tables too, blocks, count and published bytes are as without it |
| Parsers.ExtractCommitments | witness/commitment-ingest/src/parser.rs:31-43 | the nested loops collect the 32-byte commitments in transaction and action order |
| Parsers.ExtractNullifiersWithMeta | nullifier/nf-ingest/src/parser.rs:40-80 | the nested loops record each 32-byte nullifier with its transaction's running position and action count |
| Parsers.CommitmentsAreLongEnough | witness/commitment-ingest/src/parser.rs:31-43 | the commitments of any block, well formed or not, are those of its actions in order that are 32 bytes long |
| Parsers.MetasAreBlockRecords | nullifier/nf-ingest/src/parser.rs:55-77 | the records of any block from a known start are its 32-byte nullifiers in order, each with its transaction's position modulo 2^32 and number of actions modulo 2^8 |
| Parsers.HashBytes | combined-server/src/server.rs:485-490 | a hash is the first 32 bytes, with zeros for missing ones |
| Parsers.RangesTile | nullifier/nf-ingest/src/parser.rs:55-77 | each leaf of a block lies in the range of exactly one transaction |
| Parsers.MetadataAddressesTree | nullifier/nf-ingest/src/parser.rs:40-80 | for a well-formed block with right metadata, the leaf j past the recorded position is the commitment of action j |
| Parsers.FallbackPositions | nullifier/nf-ingest/src/parser.rs:47-54 | without usable metadata (none, a size of zero, or one too small for the block's actions) every recorded position of the block is off by exactly what the caller's prior size is off |
| Parsers.UnknownPositions | nullifier/nf-ingest/src/parser.rs:47-77 | with neither metadata nor prior size each recorded position is 0, right if and only if the tree is empty and no action comes before |
| ChainTracker.ChainTracker.PushBlock | shared/chain-ingest/src/chain_tracker.rs:48-68 | the deque operations do what the push function says |
| ChainTracker.ChainTracker.TruncateTo | shared/chain-ingest/src/chain_tracker.rs:71-79 | pops exactly the trailing links above the height |
| ChainTracker.ChainTracker.FindForkPoint | shared/chain-ingest/src/chain_tracker.rs:81-91 | height of the newest link with the hash, else just below the window |
| ChainTracker.ExtendsIffChild | shared/chain-ingest/src/chain_tracker.rs:48-58 | from a non-empty window a genuine block extends if and only if it is a child of the tip |
| ChainTracker.ChildKeepsNewest | shared/chain-ingest/src/chain_tracker.rs:48-58 | a child of the tip costs the window at most its oldest link, and that only when the window is full |
| ChainTracker.ChildrenKeepNewest | shared/chain-ingest/src/chain_tracker.rs:48-58 | over any number of children in a row the window is the newest of all links, as many as it may hold |
| ChainTracker.MisnumberedChild | shared/chain-ingest/src/chain_tracker.rs:48-68 | a block that names the tip as parent but not the next height is a reorganisation to the tip, and every link stays |
| ChainTracker.ReorgInsideWindow | shared/chain-ingest/src/chain_tracker.rs:60-65 | a parent inside the window gives its height as rollback target, and the links up to it stay |
| ChainTracker.ReorgOutsideWindow | shared/chain-ingest/src/chain_tracker.rs:81-91 | a parent outside drops the whole window and rolls back to just below it |
| ChainTracker.GroundIsKept | shared/chain-ingest/src/chain_tracker.rs:87-90 | from a window that starts at height 0 that link is never dropped, and stays first |
| ChainTracker.WindowDroppedIff | shared/chain-ingest/src/chain_tracker.rs:48-91 | when no link is the parent, only the new block is left if and only if the window starts above height 0 |
| ChainTracker.PushKeepsWindow | shared/chain-ingest/src/chain_tracker.rs:48-68 | a push keeps the window linked, contiguous in height and within its bound, with the new block as tip |
| ChainTracker.RunKeepsWindow | shared/chain-ingest/src/chain_tracker.rs:48-68 | the same over whole runs |
| ChainTracker.NextHeightNeverFindsFork | combined-server/src/server.rs:316-318 | for the height after the tip, a push either extends or drops the whole window |
| FollowLoop.DropAboveKeeps | combined-server/src/server.rs:371-380 | the rollback loop keeps exactly the blocks at or below the target, untouched |
| FollowLockstep.StartsInLockstep | combined-server/src/server.rs:243-302 | a tracker started from the common tip of two agreeing databases is in lockstep with them; `FollowStart` shows how the databases come to agree |
| FollowLockstep.HandleKeepsLockstep | combined-server/src/server.rs:320-406 | each handled block keeps the window a suffix of the tree's blocks, heights strictly increasing, and table and tree in agreement, overflowing inserts included |
| FollowLockstep.DeliveredIsAcceptable | combined-server/src/server.rs:331-385 | a delivered block is always new to what the rollback leaves of the table |
| FollowLockstep.RunKeepsLockstep | combined-server/src/server.rs:320-406 | lockstep after every block of every run |
| FollowLockstep.AscendingIsDelivered | combined-server/src/server.rs:316-331 | ascending delivery above the current height is all that lockstep needs |
| FollowLockstep.RunToFollows | combined-server/src/server.rs:320-406 | the end state of a batch is the last of a run of single steps |
| FollowTable.ExtendingBlock | combined-server/src/server.rs:331-355 | an extending block leaves the table within its target, or with leaks alone; the blocks that stay are those from some height on, the new one among them if it fitted, unchanged, and a lower cut would have exceeded the target |
| FollowTable.ReorganisingBlock | combined-server/src/server.rs:369-395 | a reorganising block leaves exactly the blocks up to a target below the tip and, if it fitted, its own; nothing is evicted |
| FollowSize.RunFitsTarget | combined-server/src/server.rs:316-407 | after each extending block of any run the table is within its target or without blocks |
| FollowSize.CleanRunFits | combined-server/src/server.rs:316-407 | over runs in which every block fits, the table is within its target after an extending block, and exceeds it by at most the block's own nullifiers after a reorganising one |
| FollowStart.SyncServes | witness/witness-server/src/server.rs:275-322 | a sync or catch-up that succeeds leaves a tree whose blocks are those of the chain, up to its last height |
| FollowStart.ServedStartsInLockstep | combined-server/src/server.rs:243-302 | a tree and a table that both hold blocks of one chain, up to the same tip, start the follow loop in lockstep |
| FollowStart.CatchUp | combined-server/src/server.rs:243-271 | the database that is behind catches up with the other if and only if its buckets have room, or its size checks pass; the loop then starts in lockstep if and only if there is a block and, where the table caught up, the tip alone does not exceed the target |
| FollowStart.CatchUpNullifier | combined-server/src/server.rs:456-468 | syncing and evicting the table up to the tree's tip, with that outcome, and within its target |
| FollowStart.CatchUpWitness | combined-server/src/server.rs:471-483 | syncing the tree up to the table's tip, with that outcome |
| FollowStart.FirstSyncsServe | combined-server/src/server.rs:172-183 | two first syncs that end at different tips leave both databases on the chain, as the catch-up needs |
| FollowStart.FirstStartInLockstep | combined-server/src/server.rs:136-302 | when first sync and eviction of the table and windowed start and sync of the tree end at one tip, the follow loop starts in lockstep from it if and only if the tip alone does not exceed the target |
| FollowGaps.KeepsBlocksIff | combined-server/src/server.rs:316-406 | at the next height the loop keeps every recorded block if and only if the block is a child of its tip; otherwise it drops its whole window |
| FollowGaps.BatchLosesNothingIff | combined-server/src/server.rs:316-407 | a batch of consecutive heights ends with all old and all new blocks recorded if and only if it is one chain from the tip; the leaves are then the old ones followed by those of the batch |
| FollowGaps.MissingStaysMissing | combined-server/src/server.rs:316-407 | a height that the loop has passed without recording is recorded in no later state of the run |
| FollowGaps.ReorgLeavesGap | combined-server/src/server.rs:316-407 | after a reorganisation at the next height, no height of the dropped window is in the tree in any later state of the run |
| FollowPositions.PositionsAfterGapIff | combined-server/src/server.rs:316-406 | after a reorganisation at the next height, each recorded position is ahead of its place in the loop's own tree by the number of skipped commitments, and right if and only if there are none |
| FollowPositions.RememberedSize | combined-server/src/server.rs:326-339 | when a block has right metadata and the next extends it without any, the next block's positions are right |
| FollowPositions.ForgottenSize | combined-server/src/server.rs:339-384 | a block leaves no size for the next one if and only if it announces none |
| FollowWindow.RunStaysWindow | combined-server/src/server.rs:316-407 | along any run, reorganisations included, the tree's root is that of the flat tree over the leaves before the window and those it holds |
| FollowWindow.ChainExtendsRoot | combined-server/src/server.rs:316-407 | a batch that is one chain takes the root of all leaves to the root of these and the batch's |
| FollowHistory.RecordedTreeGrows | combined-server/src/server.rs:331-395 | as long as the tree records a block, all leaves it had right after that block are in their places |
| FollowHistory.RecordedBlockLives | combined-server/src/server.rs:331-395 | while nothing overflows, as long as the table records a block it holds all that block's nullifiers |
| FollowTips.NewestSurvives | nullifier/hashtable-pir/src/lib.rs:160-166 | in a table without leaks eviction takes the newest block if and only if it alone exceeds the target |
| FollowTips.TipsAgree | combined-server/src/server.rs:331-395 | when the block fits, table and tree have it as newest block and the table holds its nullifiers |
| FollowTips.RunEndsAtOneTip | combined-server/src/server.rs:320-406 | over runs in which every block fits, tracker, tree and table stand at one tip |
| FollowServer.RollbackAbove | combined-server/src/server.rs:371-380 | the loop that rolls back the latest block while it is above the target |
| FollowServer.HandleBlock | combined-server/src/server.rs:320-406 | the loop body over the three live objects performs the step function |
| FollowServer.FollowBatch | combined-server/src/server.rs:316-407 | a batch of ascending blocks takes the live objects from lockstep to lockstep, to exactly the state that the single steps lead to |
| WindowBootstrap.PrepareTreeDb | witness/witness-server/src/server.rs:119-198 | the prepared object has the specified value, start height and initial size, or the missing-block error |
| WindowBootstrap.PreparedWindow | witness/witness-server/src/server.rs:119-228 | with the limit taken between 1 and 32: from enough roots the window starts at shard (roots - limit + 1), with all roots before it prefetched and the completing block's last commitments as seed, or the missing-block error; from fewer, at leaf 0, to sync from height 1,687,104, or 1 below that tip |
| WindowBootstrap.SpilloverIsSuffix | witness/witness-server/src/server.rs:215-228 | the kept commitments are the full leaf list from the offset on |
| WindowBootstrap.SyncRange | witness/witness-server/src/server.rs:275-322 | the loop validates and appends block by block, or stops with the mismatch |
| WindowBootstrap.StopsBefore | witness/witness-server/src/server.rs:275-322 | a sync that fails leaves the tree with exactly the blocks before the one that it refuses, and the error names that block and the tree's size |
| WindowBootstrap.SyncGoes | witness/witness-server/src/server.rs:230-322 | from the right size, blocks with right metadata sync without error and append their commitments |
| WindowBootstrap.SyncSucceedsIff | witness/witness-server/src/server.rs:230-263 | a sync of two or more blocks succeeds if and only if the tree had the size that the metadata assumes, and otherwise fails at the second block |
| WindowBootstrap.BootstrapIsFullTree | witness/witness-server/src/server.rs:119-322 | from roots that were right when fetched, the windowed tree, synced then or after any later blocks, has the chain's leaves from shard (roots - limit + 1) on and the root of all its leaves; at most the limit of shards is local if and only if no leaf follows the shard that was being filled |
| WitnessFollow.EmitEvents | witness/commitment-ingest/src/ingest.rs:80-145 | the emitting loop sends, for each block, a new-block event, preceded by a reorganisation event when there is one |
| WitnessFollow.EventNamesBlock | witness/commitment-ingest/src/ingest.rs:105-140 | a block's events name its height, hash and parent, and carry its commitments |
| WitnessFollow.Serve | witness/witness-server/src/server.rs:461-485 | the applying loop rolls back or validates and appends, event by event |
| WitnessFollow.EventsStopBefore | witness/witness-server/src/server.rs:461-485 | a stream that fails leaves the tree with exactly the events before the block that it refuses |
| WitnessFollow.EventsMatchCombined | witness/commitment-ingest/src/ingest.rs:80-145 | over whole runs the event stream ends with the combined loop's tree if and only if at each extending block the tree has the size announced before; otherwise it stops at the first such block |
| WitnessGaps.RightSizesAccepted | witness/witness-server/src/server.rs:461-475 | linked blocks with right metadata over a tree of the right size are all accepted |
| WitnessGaps.GapIsCaughtIff | witness/witness-server/src/server.rs:461-485 | after a reorganisation at the next height, canonical blocks with right metadata are accepted if and only if the skipped blocks hold no commitment; otherwise the very next block is refused |
| SyncPlan.FetchRange | nullifier/nf-ingest/src/ingest.rs:26-64 | however a range is cut into batches, each height gives exactly one event, in order, with its predecessor's size |
| SyncPlan.EventsLink | nullifier/nf-ingest/src/ingest.rs:26-64 | the events of a linked chain are linked |
| SyncDemand.PriorIsIrrelevant | nullifier/nf-ingest/src/parser.rs:40-80 | what a block puts into a bucket does not depend on the prior size it is read with |
| SyncPlan.InsertEvents | nullifier/spend-server/src/server.rs:124-140 | the loop over received events inserts one height after the other, or stops at the first overfull bucket |
| SyncPlan.SyncRange | nullifier/spend-server/src/server.rs:100-144 | succeeds if and only if every bucket can hold what it has and its share of the range; then exactly the heights of the range are added, otherwise it names an overfull bucket and stops inside the range |
| SyncPlan.InitialSync | nullifier/spend-server/src/server.rs:186-241 | forward range (the last 50,000 heights, or those above the floor) and backfill batches cover one interval ending at the tip, each height once; the loop ends with enough nullifiers or at the floor, and not before or after: with enough in the forward range nothing is backfilled, and above the last batch, of at most 50,000 blocks, there were too few; it fails if and only if some bucket cannot hold its share of that interval |
| SyncPlan.SyncedCount | nullifier/spend-server/src/server.rs:218-241 | the table's count after a sync is that of the nullifiers of the blocks it covers |
| SyncPlan.ResumeSync | nullifier/spend-server/src/server.rs:180-213 | a start from a snapshot syncs from the height after the newest stored block, or from the tip when nothing is stored, with the same outcome |
| EndToEnd.LeafHasWitness | witness/witness-client/src/reconstruct.rs:21-117 | every leaf of the window has a witness that leads from it to `tree_root()` |
| EndToEnd.BootstrapServesChain | witness/witness-server/src/server.rs:119-322 | a bootstrapped server, synced then or after any later blocks, gives every served position the siblings and root of the flat tree over what clients see, which is the whole chain if and only if it ends within 32 shards of the window's start |
| EndToEnd.RunServesFlatTree | combined-server/src/server.rs:316-407 | in every state of a follow-loop run, reorganisations included, every served position gets siblings and root of the flat tree over what clients see of the leaves before the window and in it |
| EndToEnd.LookupLeadsToWitness | nullifier/spend-client/src/lib.rs:193-204 | the lookup of a block's nullifier yields a position and count at which every output of the same transaction has a verifying witness, in the tree of that moment and in every later tree |
| EndToEnd.RunLookupLeadsToWitness | combined-server/src/server.rs:316-407 | the same for any block of a follow-loop run and any later state in which both databases still record it |
| Examples.CrowdLeaks | nullifier/hashtable-pir/src/lib.rs:98-116 | 113 nullifiers of one bucket, inserted into the empty table, fail and leave 112 entries of no block |
| Examples.SpreadFits | nullifier/spend-types/src/lib.rs:18-21 | 113 nullifiers with first byte 0 that differ in their second byte fit the empty table |
| Examples.LongTreeMisserved | witness/commitment-tree-db/src/lib.rs:142-155 | a tree of 33 shards and a hash for which served root and tree root differ |
| Examples.AliasAnswered | witness/witness-types/src/lib.rs:81-91 | under any hash, a tree of one leaf answers a query for position 2^48, with the witness of position 0 |
| Examples.NephewDropsBoth | combined-server/src/server.rs:316-406 | both databases hold one block and the loop has handled its child; a block at the next height whose parent is a sibling of that child drops both |
| Examples.FullWindow | combined-server/src/server.rs:299-302 | in the follow loop's window of 20 links a child pushes out the oldest one alone |
| Examples.GroundUnlinked | shared/chain-ingest/src/chain_tracker.rs:87-90 | a tracker started at height 0 keeps its start below a block that is not its child |

## Left out

- YPIR and SimplePIR cryptography: a private query is a row lookup.
- Sinsemilla hashing and the validity of 32-byte strings as tree nodes: the node hash is any function.
- xxHash64: any function of the payload; round trips pass the check, detection of corruption is not claimed.
- HTTP, gRPC, JSON, channels, atomic swaps, file input and output, logging, configuration: plumbing. Events are applied in the order in which they are sent.
- NullifierTable.InsertAddsBlock: assumes real (not all-zero) nullifiers, a height not stored and a block hash not stored; the code overwrites records otherwise, and nothing is claimed for that case.
- TreeSnapshot.SnapshotRoundTrip: assumes heights, sizes and per-block counts that fit the fields of the file; longer ones would be truncated by the writer's casts.
- NullifierSnapshot.SnapshotRoundTrip: equal up to the buckets' high-water marks, which the reader recomputes and no lookup reads.
- SyncPlan.InitialSync: assumes that heights up to the tip have distinct blocks with real nullifiers; failures of the fetch, which the server ignores, are not modelled.
- WitnessClient.ReconstructWitness: assumes a broadcast with as many sub-shard rows as window shards, 256 roots each, and a shard inside the window; the source indexes out of bounds and stops otherwise.
- WitnessClient.GetWitness: the same shape of the broadcast, and at most 32 window shards, as the database has no rows for more.
- FollowServer.FollowBatch: one answer of the light-wallet server; polling, database rebuilds and periodic snapshots after it do not change the state.
- FollowStart.FirstStartInLockstep: assumes that both syncs succeed; when they do is stated by `SyncPlan.InitialSync` and `WindowBootstrap.BootstrapIsFullTree`.
- FollowStart.CatchUp: assumes that both databases hold blocks of one chain, the one that the light-wallet server serves; a chain that changes between the syncs is not modelled.
- EndToEnd.RunLookupLeadsToWitness: assumes that every block of the run fits its buckets, that the table holds the nullifier once, and at most 32 local shards.
- A bucket is a value inside the table's vector, as in the source; methods of the bucket appear as functions on its entries.
- 64-bit wrap-around of heights, sizes and positions, and allocation failure on huge counts in snapshots: numbers are unbounded except where the source casts to 32 or 8 bits, which is modelled.
- The standalone nullifier follow mode: it announces orphans with all-zero hashes, so its rollbacks never match.
- Decryption leaves, sizing and performance figures, wallet storage, window sliding: described in the documentation or easy.
