# Block validation core of Teranode, in Dafny

Teranode validates a block whose transactions are spread over many subtrees. Most of its validation
code in `model/` is a fast, concurrent or partial form of something simple: an index without stored
keys that must be a finite map, a hashed and partitioned double-spend check that must be a sequential
scan, subtree roots that must compose to Bitcoin's flat merkle root. This project models that code and
proves that each fast form means what the simple one says, for every input, layout and schedule.
`dafny verify dfyconfig.toml` checks everything.

How things are modelled:

- **Hash functions** are arbitrary function values; nothing is assumed about collisions, except where
  stated: header hashes in `MedianTime` (`CollisionFree`), and merkle nodes, which are the symbolic
  terms `Leaf(id)` and `Node(l, r)`, so that equal nodes have equal children and a leaf is never an
  inner node.
- **Goroutines** are step machines. A step is one atomic access (or one critical section) and a schedule
  is any sequence of steps; a theorem about runs quantifies over all schedules. The detector, the index
  writers, the mined-status update and its callers are shown to be able to finish from every state they reach.
  The store, the resolver and the blockchain service answer whatever they like.
- **Objects updated in place** are classes (`NodeIndex.Index`, `BlockNodeIndex.BlockIndex`,
  `SubtreePins.Block`, `ErrorChain.Error`, ...) whose methods are proved against an abstract value.
  Loops are kept as loops and tied to a specification function.
- **Machine integers** are unbounded, and wrap-around is written out where the code depends on it
  (`BlockReward.Add`, the 32-bit index of the duplicate check, the saturating index ends).

| file | part of the system |
|---|---|
| `CountingSort`, `Inpoints`, `InpointDedup`, `DedupGroups`, `DedupVerify`, `DedupDetect`, `DedupTheorem`, `DedupCheck`, `DedupSeed` | the batched duplicate-input detector |
| `NodeShard`, `NodeIndex`, `BlockNodeIndex`, `TxWriters` | the transaction index and its concurrent writers |
| `Merkle`, `BlockMerkle` | merkle composition, binding of the body to the header |
| `SpendsMap`, `ParentOrder`, `BlockScan`, `Verdicts` | ordering and double-spend verdicts |
| `SubtreePins` | pins and deferred closes of the node arrays |
| `Common`, `Bytes`, `SubtreeMeta`, `BlockCodec` | shared definitions, the subtree meta decoder and the block codec |
| `MedianTime`, `BlockReward` | median time past, coinbase rules |
| `MinedStatus`, `MinedQueue` | recording transactions as mined |
| `ErrorChain` | the heap of wrapped errors |

## What turned out false

- The comments of `detect` say that the choice of a failing group does not depend on the hash seed
  (model/inpoint_dedup.go:235-237). It does, because a group that merely collides has to be resolved too: two
  hash functions disagree on whether a block is clean (`DedupSeed.SeedDecides`) and on which error is
  reported (`DedupSeed.SeedPicksError`). Up to which error it is, no two hash functions disagree on a block
  without a repeated spend exactly when no transaction with inputs fails to resolve or there are fewer than two
  inputs (`DedupSeed.SeedWithoutDuplicate`). On a block with one they do not exactly when all report the first
  (`DedupSeed.DuplicateUnderEveryHash` says when) or all fail (`DedupSeed.ErrorUnderEveryHash` says when), which
  `DedupSeed.SeedWithDuplicate` puts together. Both take some hash function that separates the inputs as given.
- `Join` does not always keep every error. It does exactly when each error is in the chain of an earlier one or
  has nothing in common with the earlier ones (`ErrorChain.Join`); two errors over one cause lose the second
  (`ErrorChain.JoinSharedCause`).
- `CheckMerkleRoot` trusts the root a subtree claims. A body it accepts hashes to the header exactly when every
  subtree after the first claims the root of its own nodes (`BlockMerkle.AcceptedBodyBoundIffHonest`;
  `BlockMerkle.DishonestClaimAccepted` is a body for which it does not). The separate key validation is what
  makes the claims true (`BlockMerkle.ValidationMeansHonest`).
- The duplicate-root rule of the merkle composition rejects one kind of scanned body that hashes to the header:
  subtrees of one transaction, one of which is the coinbase again (`BlockMerkle.DuplicateRootRule`,
  `BlockMerkle.RepeatedCoinbaseRejected`).
- A batch of the mined-status update can exceed the configured size: exactly when some stretch between two
  flushes holds more transactions than that (`MinedStatus.BatchSizes`). A subtree without misplaced
  placeholders exceeds it by at most one (`MinedStatus.UsualBatchSizes`); misplaced ones put flushes off
  (`MinedStatus.MisplacedPlaceholders`).
- A transaction that names itself as a parent passes the order check (`ParentOrder.SelfParentAccepted`); the
  check guarantees parents strictly before their children exactly for transactions that do not
  (`ParentOrder.OrderCheckIsExact`).

## Model

| member | source | states |
|---|---|---|
| CountingSort.Place | model/inpoint_dedup.go:175-182 | the in-place placing pass leaves the elements grouped by class, each class in input order, and each class's cursor at its end |
| InpointDedup.Dedup.constructor | model/inpoint_dedup.go:98-123 | the partition bits are within what partition can take and no run is recorded yet |
| InpointDedup.PartitionInRange | model/inpoint_dedup.go:125-137 | every 64-bit key falls into one of the 2^pbits partitions |
| InpointDedup.RunBuilder.AddTx | model/inpoint_dedup.go:143-148 | appends one entry per input: the two halves of its hash and the transaction index in the chosen width |
| InpointDedup.CountPartitions | model/inpoint_dedup.go:164-169 | slot p + 1 holds the number of entries of partition p |
| InpointDedup.PrefixSums | model/inpoint_dedup.go:171-173 | counts become the start of each partition and, last, the number of entries |
| InpointDedup.RunBuilder.Finish | model/inpoint_dedup.go:150-185 | the run handed over holds exactly the recorded entries, grouped by partition; 2^32 entries or more only set the flag |
| DedupGroups.Gather | model/inpoint_dedup.go:271-280 | the buffer of a merged partition holds exactly the recorded entries whose hash belongs to it, with multiplicity |
| DedupTheorem.SortEntries | model/inpoint_dedup.go:282-288 | a sorted permutation by hash and transaction |
| DedupGroups.SortedUnique | model/inpoint_dedup.go:282-288 | the sort leaves no choice: sorted sequences with the same entries are equal |
| DedupGroups.CutIntoGroups | model/inpoint_dedup.go:290-294 | the scan cuts a sorted buffer into its maximal stretches of equal hash |
| DedupGroups.WorkerGroupIsBlockGroup | model/inpoint_dedup.go:271-294 | a group a worker cuts holds all entries of the block with its hash |
| DedupGroups.BlockGroupReachesWorker | model/inpoint_dedup.go:271-294 | every group of equal hashes of the block is cut from the buffer of some partition |
| DedupTheorem.PrepareParts | model/inpoint_dedup.go:206-294 | the groups of all partitions, from merging, gathering, sorting and cutting the finished runs |
| DedupTheorem.LayoutEntries | model/inpoint_dedup.go:139-185 | the recorded entries are those of the block, whatever subtree each transaction is in |
| DedupTheorem.WorkersSeeHashGroups | model/inpoint_dedup.go:206-294 | the groups of all partitions are the hash groups of the block, whatever the run layout, partition count and merging |
| DedupVerify.VerifyGroup | model/inpoint_dedup.go:352-381 | the group's answer is that of settling its transactions in order: the first that repeats an inpoint with the hash, a resolver error, or distinct |
| DedupVerify.TakeMeaning | model/inpoint_dedup.go:364-377 | a transaction's inputs repeat exactly when one with the group's hash was seen before or occurs twice in it |
| DedupVerify.SettleMeaning | model/inpoint_dedup.go:346-381 | with a faithful resolver a found transaction is the first of the group to spend again, and distinct means none does |
| DedupDetect.VerdictUnique | model/inpoint_dedup.go:187-198 | the groups and the resolver admit one verdict only |
| DedupDetect.StepKeepsInv | model/inpoint_dedup.go:231-325 | every atomic step keeps the shared minima sound and every skipped or finished group settled against them |
| DedupDetect.FinishedVerdict | model/inpoint_dedup.go:326-344 | once all workers are done the two minima read as the determined verdict |
| DedupDetect.DetectIsDetermined | model/inpoint_dedup.go:199-344 | every complete run, with any number of workers and any interleaving, ends in the lowest duplicate, or the least failing group by bound, first transaction and text when its bound is below that |
| DedupTheorem.DetectDeterminedByBlock | model/inpoint_dedup.go:187-344 | the verdict depends on the block, the hash and the resolver only, not on layout, widths, partitions, merging, sort, workers or schedule, resolver failures included |
| DedupTheorem.VerdictIsScan | model/inpoint_dedup.go:187-198 | with a resolver that never fails the determined verdict is what scanning the block in order reports, for any hash |
| DedupTheorem.DetectIsExact | model/inpoint_dedup.go:199-344 | over every complete schedule of the prepared groups, the verdict is the earliest transaction that spends an outpoint spent before it, and none exactly when there is none |
| DedupDetect.CanFinish | model/inpoint_dedup.go:249-325 | from every state any run reaches, the workers can still all finish |
| DedupDetect.Detect | model/inpoint_dedup.go:199-344 | with any unfinished worker moving next, it ends, compare-and-swap retries included, and in the determined verdict |
| DedupCheck.RecordRun | model/inpoint_dedup.go:139-185 | adding a run's transactions and finishing it leaves their entries grouped in its slot, or the too-big flag exactly at 2^32 inputs |
| DedupCheck.RecordAll | model/inpoint_dedup.go:98-185 | after every run is finished the slots hold what each recorded |
| DedupCheck.DetectIn | model/inpoint_dedup.go:199-344 | the too-big error, or the verdict the block, the hash and the resolver determine |
| DedupCheck.CheckDuplicateInputs | model/inpoint_dedup.go:98-344 | from the transactions to the answer: too big exactly when a subtree has 2^32 inputs or more, otherwise the earliest transaction that spends an outpoint spent before it, clean exactly when there is none, for any hash, layout, sizing, worker count and interleaving |
| DedupSeed.SettleTrace | model/inpoint_dedup.go:352-381 | what settling a group went through: everything resolved up to a found transaction, and no repeated spend before a failing one |
| DedupSeed.CleanUnderEveryHash | model/inpoint_dedup.go:187-247 | a block without a repeated spend is clean under every hash exactly when no transaction with inputs fails to resolve or there are fewer than two inputs |
| DedupSeed.DuplicateUnderEveryHash | model/inpoint_dedup.go:187-247 | the first repeated spend is reported under every hash exactly when nothing up to it fails and no later failure can be made to collide below it |
| DedupSeed.SomeVerdict | model/inpoint_dedup.go:199-344 | for every block, hash and resolver some verdict is determined |
| DedupSeed.SeedDecides | model/inpoint_dedup.go:231-247 | one block on which a hash that keeps two inputs apart says clean and one that makes them collide does not |
| DedupSeed.SeedPicksError | model/inpoint_dedup.go:231-247 | one block on which two hashes report different errors |
| DedupSeed.SeedWithoutDuplicate | model/inpoint_dedup.go:187-247 | for a block without a repeated spend: no two hashes disagree, and one verdict holds for all, exactly when no transaction with inputs fails to resolve or there are fewer than two inputs |
| DedupSeed.ErrorUnderEveryHash | model/inpoint_dedup.go:187-247 | every hash fails exactly when the first repeated spend fails to resolve, or for everything it spends again the earlier spender does |
| DedupSeed.SeedWithDuplicate | model/inpoint_dedup.go:187-247 | for a block with a repeated spend: no two hashes disagree on more than which error exactly when all report it or all fail, by those two conditions |
| DedupSeed.OneVerdictForAll | model/inpoint_dedup.go:231-247 | when all failures give one error, that is exactly when one verdict holds for all hashes |
| NodeShard.Find | model/block_node_index.go:121-147 | finds a key exactly when the map has it, at its slot, and otherwise ends on the first free slot of its path; the panic after the scan is unreachable |
| NodeShard.NoFreeMeansFull | model/block_node_index.go:121-147 | a path without a free slot covers the whole table |
| NodeShard.FreeSlotMeansAbsent | model/block_node_index.go:121-147 | a path that reaches a free slot without the key proves the key absent, whatever fingerprints collide |
| NodeShard.FillKeepsTable | model/block_node_index.go:170-189 | filling the slot a probe ended on keeps every probe path hole-free and adds exactly one map entry |
| NodeShard.BucketPrefix | model/block_node_index.go:440-469 | in every bucket of a consistent table the used slots come first |
| NodeShard.MoveBucket | model/block_node_index.go:444-467 | rehashing a bucket up to its first free slot carries over all its entries |
| NodeShard.Grow | model/block_node_index.go:440-469 | a doubled table is consistent and holds the same map |
| NodeShard.MakeRoom | model/block_node_index.go:178-180 | doubles exactly when one more entry would leave the table more than nine tenths full, and leaves it alone otherwise |
| NodeShard.Insert | model/block_node_index.go:170-189 | reports false and changes nothing exactly when the key is present; otherwise the map gains that entry, growing when needed |
| NodeIndex.Index.constructor | model/block_node_index.go:72-96 | a new index is the empty map |
| NodeIndex.Index.Put | model/block_node_index.go:149-168 | fails exactly when the hash is present or the index frozen; otherwise the map gains the entry |
| NodeIndex.Index.Get | model/block_node_index.go:421-430 | finds a hash exactly when it was put, with the index it was put at |
| NodeIndex.Index.GetHashed | model/block_node_index.go:432-437 | the same for a key whose hash is known |
| NodeIndex.Index.PutEach | model/block_node_index.go:246-263 | stops at the first index whose node repeats, having added the ones before it |
| NodeIndex.Index.HashAndCount | model/block_node_index.go:283-289 | the entries of the range with their hashes, and how many go to each shard |
| NodeIndex.Index.CountsToStarts | model/block_node_index.go:291-295 | the counts become the start of each shard's stretch |
| NodeIndex.PartOfAddAll | model/block_node_index.go:265-328 | a shard's part of the resulting map depends only on that shard's own entries, in order |
| NodeIndex.Index.PutGroup | model/block_node_index.go:330-359 | inserts a shard's entries in order, going on after a repeat, and reports the first repeat |
| NodeIndex.RepeatsInGroup | model/block_node_index.go:265-328 | an entry repeats within its shard's group exactly when it repeats in the whole list |
| NodeIndex.AllShardsVerdict | model/block_node_index.go:303-327 | the least repeat over all shard groups is the first repeat of the chunk, whatever shard the walk starts at |
| NodeIndex.Index.PutChunk | model/block_node_index.go:265-328 | a shard-grouped chunk reports the first repeating index of the range, or adds every node |
| NodeIndex.Index.PutNextChunk | model/block_node_index.go:237-241 | one round of the chunk loop extends what is decided by the next chunk |
| NodeIndex.Index.PutRange | model/block_node_index.go:211-244 | one at a time or chunk by chunk, the answer is the first index of the range whose node is already there or earlier in the range, and all nodes are added when there is none |
| NodeIndex.Index.GetBatch | model/block_node_index.go:369-419 | answers each lookup as a Get would |
| NodeIndex.Index.GetBatchFrozen | model/block_node_index.go:376-419 | hashing all keys of a frozen index first does not change any answer |
| NodeIndex.Index.Freeze | model/block_node_index.go:471-475 | the map is unchanged and no longer accepts entries |
| BlockNodeIndex.HashAtRecovers | model/block_node_index.go:556-565 | the node read back for a position's index is that node, for every subtree that fits its slot and a last subtree of any length |
| BlockNodeIndex.OverflowsExactly | model/block_node_index.go:567-584 | a subtree is marked as overflowing exactly when hashAt would look for one of its nodes in another subtree |
| BlockNodeIndex.IndexArithmetic | model/block_node_index.go:556-565 | the recursive product and quotient of the model are the machine's, in the index of a position and in where an index is looked up |
| BlockNodeIndex.IndexInjective | model/block_node_index.go:509-565 | positions of subtrees that fit have distinct indexes |
| BlockNodeIndex.TxIndexEndExact | model/block_node_index.go:727-740 | below 2^64 - 1 the saturating end of a subtree is exact |
| BlockNodeIndex.MaxTxIndex | model/block_node_index.go:742-758 | the largest end of a subtree |
| BlockNodeIndex.ChosenIndexFits | model/block_node_index.go:760-768 | whenever the 32-bit index is chosen, every index put into it fits in 32 bits |
| BlockNodeIndex.ChooseIndex | model/block_node_index.go:742-768 | the 32-bit index is taken exactly when there is an index space and no subtree's stretch reaches past 2^32 |
| BlockNodeIndex.BlockIndex.Register | model/block_node_index.go:567-584 | makes exactly that subtree's nodes readable, or marks it as overflowing |
| BlockNodeIndex.BlockIndex.PutOverflow | model/block_node_index.go:586-611 | fails exactly when the hash is already in the overflow map or the index; entries are never lost |
| BlockNodeIndex.BlockIndex.Put | model/block_node_index.go:625-643 | refuses an index above 32 bits and a hash that is in either structure; otherwise it is added |
| BlockNodeIndex.BlockIndex.PutRange | model/block_node_index.go:645-678 | each outcome exactly: too large when the range reaches past 32 bits, refused when frozen, a duplicate when some node repeats an indexed hash, an earlier node or an overflow entry, and otherwise every node is added; a duplicate is reported at the first such node, with nothing but nodes of the range added |
| BlockNodeIndex.BlockIndex.FirstInOverflow | model/block_node_index.go:662-676 | the first node of a range that is an overflow entry |
| BlockNodeIndex.BlockIndex.Get | model/block_node_index.go:694-703 | finds exactly the hashes in the index or the overflow map |
| TxWriters.StepKeepsInv | model/Block.go:1618-1721 | every step of a writer keeps: entries name live positions, and of two equal hashes in index and overflow at most one gets past its check |
| TxWriters.SomeWriterReportsIffRepeat | model/Block.go:1618-1721 | in every interleaving, once all writers have finished, one has reported a duplicate exactly when two positions of the block hold the same transaction, overflow against index included |
| TxWriters.CanFinish | model/Block.go:1618-1721 | from every state any run reaches, the writers can still all finish |
| TxWriters.EntriesReadBack | model/block_node_index.go:556-582 | at every moment an index entry reads back as its own hash from a registered subtree |
| Merkle.ComposeIsFlat | model/Block.go:3250-3336 | the root of the part roots, the short last one lifted, is the flat duplicate-when-odd root of the whole list |
| Merkle.UpInjective | model/Block.go:3309-3318 | two lists that agree one level up and repeat nothing after the first element are equal |
| Merkle.RootDetermines | model/check_duplicate_txs.go:16-22 | the root of a list that repeats nothing after its first element determines the list, its length included |
| Merkle.IdsDetermined | model/check_duplicate_txs.go:16-22 | two transaction lists with one merkle root, neither repeating after the coinbase, are the same list |
| Merkle.RootSameLength | model/Block.go:3309-3318 | lists of one length with one root are equal, whatever they repeat |
| Merkle.DuplicatedTailSameRoot | model/check_duplicate_txs.go:16-22 | without the scan this fails: repeating the last transaction of an odd list keeps the root (CVE-2012-2459) |
| BlockMerkle.CheckShapes | model/Block.go:3250-3300 | accepts exactly when every loaded subtree has its shape and only subtrees that may be missing are |
| BlockMerkle.ShapeMeaning | model/subtree_body_shape.go:37-66 | the walk accepts exactly when every subtree but the last has the first one's length, that is a power of two, and the last is not longer |
| BlockMerkle.ComposeRoots | model/subtree_body_shape.go:75-103 | the root over distinct subtree roots; a repeated one is rejected |
| BlockMerkle.ShapedMerkle | model/Block.go:3250-3336 | for a body of the right shape the composed root is the flat merkle root of its transactions, unless two subtree roots coincide |
| BlockMerkle.CheckMerkleRoot | model/Block.go:3166-3229 | each verdict exactly: a storage error for a different number of subtrees and keys, a processing error for a missing or empty subtree, else accepted when up to one subtree hashes to the header, or more of the right shape have distinct claimed roots whose root is the header's, and corrupt otherwise; what it accepts hashes to the header exactly when the later subtrees claim their own roots, and of honest bodies it accepts exactly those that hash to the header and, with several subtrees, have the shape and no two roots alike |
| BlockMerkle.OneSubtreeDecides | model/Block.go:3250-3253 | a body of at most one subtree is accepted exactly when it hashes to the header, whatever its length, and is corrupt otherwise |
| BlockMerkle.ClaimsDecide | model/Block.go:3166-3336 | a body of several loaded subtrees is accepted exactly when it has the shape, its claimed roots are distinct and their root is the header's, and is corrupt otherwise |
| BlockMerkle.HonestDecides | model/Block.go:3166-3336 | for every honest body, of any number of subtrees, acceptance in terms of its transactions |
| BlockMerkle.AcceptedBodyHashesToHeader | model/Block.go:3166-3229 | an accepted body's flat merkle root, coinbase first, is the header's |
| BlockMerkle.ShapedBodyAcceptedIff | model/Block.go:3166-3336 | a body of the right shape is accepted exactly when its flat root is the header's and no two subtree roots coincide |
| BlockMerkle.EarlyCheckAgrees | model/Block.go:2548-2594 | the check with only the first and last subtrees and the keys gives the full check's verdict once every root equals its key and the middle lengths pass; a first node that is no placeholder is corrupt |
| BlockMerkle.CheckBodyBoundToHeader | model/Block.go:2548-2594 | each verdict exactly: a processing error for a missing or empty subtree at either end, accepted when the body starts with the placeholder and the two subtrees and the keys between have the shape, distinct roots and the header's root, corrupt otherwise |
| BlockMerkle.SubtreeTxDeduper.Add | model/check_duplicate_txs.go:100-127 | folds one subtree in, and fails exactly when it repeats a scanned id |
| BlockMerkle.CheckForDuplicateTxs | model/check_duplicate_txs.go:42-60 | rejects exactly when two scanned positions hold one id |
| BlockMerkle.ScanMeansTailDistinct | model/check_duplicate_txs.go:100-127 | a passing scan leaves no repeat after the coinbase, although position [0][0] is skipped |
| BlockMerkle.HeaderDeterminesBody | model/Block.go:3166-3229 | two blocks that pass both checks under one header merkle root carry the same transactions in the same order, however cut into subtrees |
| BlockMerkle.DuplicateRootRule | model/subtree_body_shape.go:75-103 | for a scanned body the duplicate-root rule rejects exactly single-transaction subtrees that repeat the coinbase |
| BlockMerkle.RepeatedCoinbaseRejected | model/subtree_body_shape.go:75-103 | a body that passes the scan, hashes to the header and is rejected |
| BlockMerkle.ScannedBodyAcceptedIff | model/Block.go:3166-3336 | a scanned body of the right shape is accepted exactly when it hashes to the header, with that one exception |
| BlockMerkle.ValidationMeansHonest | model/subtree_meta_reader.go:72-110 | the key validation passes exactly for a subtree whose nodes hash to the key it was fetched under |
| BlockMerkle.AcceptedBodyBoundIffHonest | model/Block.go:3166-3229 | an accepted body hashes to the header exactly when every subtree after the first claims the root of its own nodes |
| BlockMerkle.DishonestClaimAccepted | model/Block.go:3166-3229 | a body that is accepted and does not hash to the header |
| SubtreePins.StepInv | model/Block.go:1241-1306 | every pin, release, reload and close step keeps the ownership invariant |
| SubtreePins.LiveIndexFreezesSubtrees | model/Block.go:1271-1306 | while an index is live no step detaches, pools or closes anything |
| SubtreePins.EveryRunIsSafe | model/Block.go:3002-3039 | in every run: what a live index reads is attached and open, a subtree is closed at most once, one that was taken is closed or its close deferred, nothing mmap-backed is pooled |
| SubtreePins.DeferredIsNeverPooled | model/Block.go:3002-3039 | in every run, a subtree whose close was deferred at some point is not pooled then or at any later point |
| SubtreePins.AllClosedInTheEnd | model/Block.go:1241-1306 | in every run, with the map gone and no release of it under way, every subtree that was taken has been closed exactly once |
| SubtreePins.ReleaseTakesAll | model/Block.go:3002-3039 | a release takes every loaded subtree |
| SubtreePins.MmapIsNeverLost | model/Block.go:3080-3106 | in every run, with anything between the entries of a reload, an mmap-backed subtree that is no longer in its place was taken |
| SubtreePins.NoDeferredAfterRelease | model/Block.go:1241-1269 | no deferred close is left once an index was let go and its closes run, unless another index is pinned meanwhile |
| SubtreePins.LiveIndexIsLetGo | model/Block.go:1241-1269 | from every state with a live index the steps of releaseTxMap can be taken; then there is no map, nothing is pinned or deferred, and each formerly deferred subtree was closed exactly once |
| SubtreePins.ReleaseLeaves | model/Block.go:3002-3039 | a release empties every entry; while pinned it lists the subtrees for later in block order and touches none, otherwise it closes each once and pools exactly those on the heap |
| SubtreePins.DeferredClosesLeave | model/Block.go:1286-1306 | with no index live, exactly the listed subtrees are closed, once each and without pooling |
| SubtreePins.InstallLeaves | model/Block.go:2754-2760 | the subtrees of a reload are attached and open, those mapped exactly the ones said to be, and the others are as they were |
| SubtreePins.CloseEach | model/Block.go:1286-1306 | closing one subtree after the other detaches and closes each once per listing |
| SubtreePins.Block.PinNodeIndex | model/Block.go:1271-1284 | installs the map; exactly one pin when it is a node index, none otherwise |
| SubtreePins.Block.RegisterNodes | model/block_node_index.go:567-584 | the live index reads that array from now on, exactly if it is still open |
| SubtreePins.Block.ReleaseSubtreeNodes | model/Block.go:3002-3039 | every entry is emptied; its subtree is closed now, or listed for later while pinned |
| SubtreePins.Block.DropEntry | model/Block.go:3083-3102 | empties one entry; a mapped subtree is closed now or listed for later, by the pin count read for that entry |
| SubtreePins.Block.CloseMmapSubtrees | model/Block.go:3080-3106 | the loop undisturbed: every mmap-backed subtree is taken, no entry is left |
| SubtreePins.Block.InstallSubtrees | model/Block.go:2754-2760 | the loaded subtrees in place of the dropped ones, attached, open and mapped as said |
| SubtreePins.Block.CloseTxMap | model/Block.go:1249-1255 | nothing is pinned afterwards, and a node index is closed |
| SubtreePins.Block.ClearTxMap | model/Block.go:1257-1257 | there is no map afterwards, and a release is under way if there was one |
| SubtreePins.Block.RunDeferredCloses | model/Block.go:1286-1306 | closes every listed subtree once and empties the list, unless an index is live |
| SubtreePins.Block.ReleaseTxMap | model/Block.go:1241-1269 | undisturbed: no map, nothing pinned, every deferred close run once |
| SpendsMap.KeyIsInjective | model/disk_parent_spends_map.go:92-107 | different inpoints have different keys although the index is folded into the placement windows |
| SpendsMap.DiskParentSpendsMap.SetIfNotExists | model/disk_parent_spends_map.go:109-120 | exact set insertion: inserted exactly when the inpoint was not there, whatever shares its disk; a failing table is an error, never a duplicate, and changes nothing |
| ParentOrder.CheckParents | model/Block.go:2424-2459 | the answer of the walk over the parents, with batched lookups or without; an error exactly when some parent in the block comes later |
| ParentOrder.FilledIsMapOfBody | model/Block.go:1618-1721 | after any interleaving of the fill that reports nothing, the map answers every transaction with the index computed for it, and knows nothing else; a placeholder in the coinbase position adds nothing |
| ParentOrder.IndexOrder | model/Block.go:2303-2306 | the index a transaction is stored at orders transactions by position |
| ParentOrder.DenseOrder | model/Block.go:1801-1830 | so does the dense index of the duplicate check |
| ParentOrder.DensePosition | model/Block.go:1801-1808 | the dense index of a transaction is its place among all transactions of the block |
| ParentOrder.IndexesAgree | model/Block.go:1801-1830 | the two indexes order any two transactions alike |
| ParentOrder.AcceptedIffParentsBefore | model/Block.go:2424-2459 | accepted exactly when no parent that is in the block comes after the transaction |
| ParentOrder.PassedOnAreAbsent | model/Block.go:2440-2457 | what goes to the chain lookup are exactly the parents that are not in the block |
| ParentOrder.SelfParentAccepted | model/Block.go:2440-2457 | a transaction that names only itself is accepted and nothing is looked up for it |
| ParentOrder.OrderCheckIsExact | model/Block.go:2303-2459 | fill and check together: all parents in the block are strictly before the transaction exactly when it is accepted and does not name itself |
| BlockScan.SpendMeans | model/Block.go:2395-2415 | without failures of the map, a duplicate exactly when an input was spent before or earlier in the transaction |
| BlockScan.ScanAnswers | model/Block.go:1887-1988 | the checks in transaction order give exactly the answer stated by positions of the block: which transaction fails first, at which check, or what the chain says about the absent parents |
| BlockScan.PlainScanAnswers | model/Block.go:1887-1988 | the same for the scan without failures of the map |
| BlockScan.OneAnswer | model/Block.go:1887-1988 | a block has one answer |
| BlockScan.RepeatsByPosition | model/Block.go:2395-2415 | an input repeats exactly when an earlier live transaction or an earlier input of its own spends the same |
| BlockScan.OrderFrom | model/Block.go:2424-2459 | the order check stops at the first parent that comes later, and otherwise passes on the absent ones |
| BlockScan.AbsentParentsUnique | model/Block.go:1976-1979 | what is looked up on the chain is the one list of all absent parents of all live transactions, in block order |
| Verdicts.SpendInputs | model/Block.go:2395-2415 | the first input the map refuses or already has decides; otherwise all are recorded |
| Verdicts.ValidateTxPerInput | model/Block.go:1944-1975 | one transaction of the disk-map path: an error is the verdict of the scan from there; without one the scan goes on from what the map now holds and the parents found missing |
| Verdicts.ScanPerInput | model/Block.go:1887-1988 | on a map holding anything, the transactions in order and then the chain give the verdict of the scan that starts from what the map holds |
| Verdicts.ValidatePerInput | model/Block.go:1887-1988 | the input-by-input path gives the answer by positions: an error at the first transaction that fails a check, naming the first check it fails, also when the map fails anywhere; valid exactly when every transaction passes and the chain has nothing against all the absent parents in order; the plain scan's verdict when the map never fails |
| Verdicts.EarlierDuplicate | model/Block.go:2001-2029 | the first transaction within the limit, and before any that cannot be read, that repeats an input of the subtree |
| Verdicts.RecordsAreCollected | model/Block.go:2303-2336 | what the run recorded is, by transaction, the inputs that were collected |
| Verdicts.ValidateTx | model/Block.go:1944-1975 | one transaction of the in-memory path: records its inputs, and on an error returns the verdict of the scan |
| Verdicts.DetectedIsFirstDup | model/Block.go:2036-2103 | the detector's exact verdict on what was collected is the first such transaction |
| Verdicts.ValidateBatched | model/Block.go:1887-2103 | recording, settling and detecting give the same verdict at the same transaction as the input-by-input path, and so the answer by positions, for any mix of errors, duplicates and missing parents; a block with nothing else wrong and 2^32 inputs or more is refused as too large |
| SubtreeMeta.EntryInPrefix | model/subtree_meta_reader.go:204-285 | an entry that is whole in the buffer is the next entry of the stream |
| SubtreeMeta.WordsArePacked | model/subtree_meta_reader.go:204-285 | the vout words on the wire are the packed layout an entry stores |
| SubtreeMeta.MetaEntryShape | model/subtree_meta_reader.go:292-320 | ok exactly when the whole entry is in the buffer, with its true size and counts |
| SubtreeMeta.EntryReads | model/subtree_meta_reader.go:204-320 | an entry written in the wire format, little-endian counts, hashes and outputs, parses back, whatever follows it |
| SubtreeMeta.EntryWritten | model/subtree_meta_reader.go:204-320 | whatever parses is the start of the bytes as it would be written |
| SubtreeMeta.DecodesWritten | model/subtree_meta_reader.go:193-285 | decoding one by one finds n entries exactly when the stream starts with n written ones, and finds those |
| SubtreeMeta.StoreShared | model/subtree_meta_reader.go:230-258 | stores an entry in slices of the shared slabs that overlap no earlier entry's and stay within what the slab was allocated for |
| SubtreeMeta.StoreOwn | model/subtree_meta_reader.go:273-280 | the same for an entry decoded with arrays of its own |
| SubtreeMeta.DecodeBuffered | model/subtree_meta_reader.go:219-262 | one round stores every entry that is whole in the buffer and consumes exactly those |
| SubtreeMeta.DecodeBody | model/subtree_meta_reader.go:193-285 | for every stream, count and buffer size the entries whose bytes the stream starts with, as the one-at-a-time decoder finds them, in slices that do not overlap and stay within their slabs; it fails exactly when there are no such entries or the count exceeds the capacity |
| BlockCodec.VarIntReads | model/Block.go:378-398 | a written variable-length integer reads back, leaving what follows |
| BlockCodec.VarIntOnly | model/Block.go:378-398 | only a written one is read |
| BlockCodec.HeaderReads | model/BlockHeader.go:383-407 | a header reads back from its eighty bytes, every field at its place |
| BlockCodec.HeaderOnly | model/BlockHeader.go:75-101 | any eighty bytes are those of the header read from them |
| BlockCodec.ReadSubtrees | model/Block.go:399-430 | reads the hashes in order, failing on a missing or zero one |
| BlockCodec.HashesRead | model/Block.go:3353-3370 | written hashes read back exactly when none is zero |
| BlockCodec.TailReads | model/Block.go:432-468 | a written coinbase and height read back, and what follows them decides the BUMP |
| BlockCodec.NewBlockFromBytes | model/Block.go:318-347 | it answers with a block exactly when the bytes are a form of it; on the bytes of any block it gives that block back or, for a zero subtree hash or a BUMP over the bound, refuses it |
| BlockCodec.RoundTrip | model/Block.go:3412-3469 | reading undoes writing exactly for blocks without a zero subtree hash and with a BUMP within the bound; it fails on all others, and bytes after the block do not matter |
| BlockCodec.OnlyWrittenIsRead | model/Block.go:318-469 | whatever is accepted starts with the bytes of the block it is read as |
| BlockCodec.BumpExactly | model/Block.go:448-466 | what may follow the height: a BUMP within the bound and anything after it; or, for no BUMP, nothing or the lone first byte of a longer length |
| BlockCodec.ReadsExactly | model/Block.go:318-469 | a block is read exactly from its bytes up to the height followed by one of those endings |
| MedianTime.VerifyLinkage | model/Block.go:542-569 | accepts exactly a run in which every header follows the next one, in either order |
| MedianTime.MedianTimeWindow | model/Block.go:602-670 | answers exactly when the run holds, next to the parent, eleven linked ancestors or all of them back to genesis: a run that begins with them or ends with them in reverse gives exactly those, and each refusal for no run, no parent hash or no anchor has its own condition |
| MedianTime.OneWindowPerParent | model/Block.go:602-670 | any accepted window is the walk along parent hashes, whatever run supplied it |
| MedianTime.MedianUnique | model/Block.go:3471-3496 | one value has rank n/2 |
| MedianTime.CalculateMedianTimestamp | model/Block.go:3471-3496 | the timestamp of rank n/2, whichever sort is used; none for no timestamps |
| MedianTime.CheckTimestamp | model/Block.go:698-745 | each verdict of the timestamp rules, in order: too far ahead, wrong context, not after the median of the supplied window |
| MedianTime.MedianOfParent | model/Block.go:713-735 | two accepted runs for one parent have the same median, that of the walk |
| BlockReward.SumChecked | model/Block.go:1427-1443 | the true sum, or an overflow exactly when it needs more than 64 bits |
| BlockReward.CheckBlockRewardAndFees | model/Block.go:1372-1471 | accepted exactly when it is the genesis block or all four conditions of the checkpoint exemption hold, or when no true sum needs more than 64 bits and the outputs do not exceed fees plus subsidy; every other verdict names what fails first |
| BlockReward.PreGenesisSigOpCount | model/block_coinbase_common_rules.go:127-154 | the count of the recursive reading of the script |
| BlockReward.SigOpsOfProgram | model/block_coinbase_common_rules.go:118-182 | for any instructions written one after the other, with pushes in each of the four forms, and then bytes that start with no instruction, the count is the weight of the instructions, whatever the pushes carry |
| BlockReward.WeightCounts | model/block_coinbase_common_rules.go:127-154 | that weight is one per signature check and twenty per multi-signature check |
| BlockReward.StopsWhenStuck | model/block_coinbase_common_rules.go:127-182 | counting stops exactly where the bytes start with no instruction |
| BlockReward.EveryScriptDecodes | model/block_coinbase_common_rules.go:118-182 | every script is such instructions and such an ending |
| BlockReward.CheckMoney | model/block_coinbase_common_rules.go:76-95 | passes exactly when the true total is within MAX_MONEY, and otherwise names how the first bad output breaks the range |
| BlockReward.BadAtUnique | model/block_coinbase_common_rules.go:76-95 | one output is the first bad one, in one way only |
| BlockReward.TxCommonRuleViolation | model/block_coinbase_common_rules.go:53-116 | no violation exactly when all rules hold over true sums, and otherwise the first rule broken, in the order inputs, outputs, size, money, signature operations |
| BlockReward.CheckCoinbase | model/Block.go:1427-1471 | a coinbase that keeps the common rules cannot reach the outputs-overflow branch of the reward check |
| MinedStatus.CutBatches | model/update-tx-mined.go:307-362 | the batches hold every transaction of the subtree once, in order, and none is empty |
| MinedStatus.BatchSizes | model/update-tx-mined.go:307-342 | for any placement of placeholders: every batch is the transactions of a stretch between flushes, and no batch exceeds the size exactly when no such stretch does |
| MinedStatus.UsualBatchSizes | model/update-tx-mined.go:307-342 | with the placeholder nowhere but first, batches exceed the size by at most one, and by none exactly when the subtree begins with the placeholder or is no longer than a batch |
| MinedStatus.MisplacedPlaceholders | model/update-tx-mined.go:308-313 | a batch of four at a size of two |
| MinedStatus.CheckBatchResults | model/update-tx-mined.go:262-305 | counts the submitted transactions not reported for this block, and finds exactly the reported ids on the recent chain and the older ones |
| MinedStatus.EveryRunKeeps | model/update-tx-mined.go:219-373 | in every run the submitted hashes are those of the batches passed, the counters are zero exactly when every answer was good, and no old id is lost |
| MinedStatus.StepTallied | model/update-tx-mined.go:262-362 | the counters are the number of failed calls and of submitted transactions not reported for this block |
| MinedStatus.CanFinish | model/update-tx-mined.go:247-375 | from every state the goroutines can still all finish, also when every store call fails |
| MinedStatus.CancelStops | model/update-tx-mined.go:323-349 | a cancelled context can stop any goroutine with batches left, and then the update ends as cancelled |
| MinedStatus.DoneExactly | model/update-tx-mined.go:375-447 | success is reported exactly when no subtree was missing, no goroutine gave up, the store took and tagged every batch, and nothing reported is on the block's chain, for every schedule |
| MinedStatus.VerdictExactly | model/update-tx-mined.go:375-447 | every verdict exactly, for every schedule: a missing subtree, a cancelled goroutine, what the blockchain service says about all the old ids, the number of failed calls and of untagged transactions, a hit on the recent chain, success |
| MinedStatus.DoneMeansAllSubmitted | model/update-tx-mined.go:199-447 | after success the store was asked about every transaction exactly as often as the block holds it |
| MinedStatus.DoneMeansTagged | model/update-tx-mined.go:199-447 | after success every transaction was in a successful call that reported this block for it |
| MinedQueue.StepKeeps | model/update-tx-mined.go:145-197 | every step keeps the in-flight set equal to the blocks of the unfinished calls, with the queue and the worker in step |
| MinedQueue.OneUpdatePerBlock | model/update-tx-mined.go:145-197 | in every run no two admitted calls are about one block at once, and a call is turned away exactly when one about its block has not returned |
| MinedQueue.NobodyStuck | model/update-tx-mined.go:106-197 | while a call is unfinished some step can be taken, also with the channel full |
| MinedQueue.FreeBlockIsLetIn | model/update-tx-mined.go:145-160 | a call about a block nobody is working on is let in, and then its block is in flight |
| MinedQueue.ServedInOrder | model/update-tx-mined.go:106-197 | in every run the worker serves the calls in the order they were sent, and a call returns only after it was served |
| MinedQueue.EveryoneCanReturn | model/update-tx-mined.go:106-197 | from every reached state all calls can return without another one arriving |
| ErrorChain.Contains | errors/errors.go:474-523 | whether the two chains share an error; the cycle guards never fire |
| ErrorChain.MeetIffSameLast | errors/errors.go:474-523 | two chains share an error exactly when they end in the same one |
| ErrorChain.Is | errors/errors.go:156-202 | holds exactly when some link among the first 2^20 has the target's code |
| ErrorChain.SetWrappedErr | errors/errors.go:239-282 | every chain that ended where this one did grows by the attached chain, all others stay, or nothing changes when the chains already share an error |
| ErrorChain.New | errors/errors.go:356-424 | a fresh error in front of the cause's chain; no other chain changes |
| ErrorChain.NewBlockHeaderContextError | errors/Error_types.go:122-149 | its own code, a processing error, then the caller's cause; no object that existed before is written to |
| ErrorChain.Join | errors/errors.go:1169-1193 | no chain is shortened or made cyclic; the first error's chain is the given chains one after the other without those that share an error with an earlier one, so every error stays reachable exactly when each is in an earlier one's chain or shares nothing with the earlier ones |
| ErrorChain.JoinKeepsAllIff | errors/errors.go:1169-1193 | that condition, and that nothing any of the chains held is lost then |
| ErrorChain.JoinSharedCause | errors/errors.go:1169-1193 | a heap with two errors over one cause in which Join loses the second |
| ErrorChain.ChainAcyclic | errors/errors.go:239-282 | in every heap these operations reach, no chain meets an error twice |

## Left out

- Real SHA-256, maphash and the subtree library: hashes are arbitrary functions or symbolic terms, and subtree roots follow the duplicate-when-odd rule.
- Context cancellation inside the duplicate detector, and its time and memory sizing: they change when it stops, not what it reports.
- Logging, tracing, metrics, peer fetching and service wiring.
- Cache prefetching, preallocation sizes and scratch pools of the node index: they affect speed only.
- The memo of the first subtree's root on a block: the root is recomputed wherever it is used.
- The disk transaction map, ReplaceSubtreeSlices and errors returned by Close: outside the pin protocol modelled.
- Foreign links in error chains, messages, stack data and gRPC conversion: chains are of `*Error` objects with a code.
- Blocks of several subtrees in the verdict comparison: subtrees are then validated concurrently and the first error returned depends on timing.
- How parents that are not in the block are looked up on the chain: any answer is allowed.
- Proof-of-work targets, block version floors, checkpoint gates and coinbase construction: straightforward next to the rest.
- BlockHeaderMeta and the SubTreesFromBytes reader: easy next to the block codec.
- Inputs and outputs of a transaction: the block codec takes a self-delimiting transaction codec as a parameter, and integers are CompactSize with the shortest form required.
- SubtreeMeta.StoreShared: slabs are values that grow at their end, so aliasing between a slab and its slices is position ranges, not shared memory.
- SubtreePins.Block.ClearTxMap: no map is installed between the close of the old one and the clearing of the field, because one goroutine fills the map and lets it go.
- DedupCheck.RecordAll: runs are finished one after the other; each fills a slot of its own, so their order does not matter.
- NodeIndex.Index.Put: one lock is held per call, so the class models calls one at a time; the concurrent writers are in TxWriters over the finite map.
- SpendsMap.DiskParentSpendsMap.SetIfNotExists: a disk's table is an exact set of keys; when it is full is left open, so it may refuse any insertion.
- MinedStatus.CutBatches: the store calls are the batches; the calls themselves and their answers are steps of the machine.
- MinedStatus.CheckBatchResults: the old ids are collected as a set, which is what the slow path turns them into.
