# Verified model of the advanced blockchain node

This project models the stateful core of the node in Dafny and proves what it keeps over whole runs: the block store with
its orphan pool, the Merkle trees and their proofs, the forest of shards, the ledger of accounts, the accumulator, and the
vector clocks used to resolve conflicts. `dafny verify dfyconfig.toml` checks all of it.

Objects whose methods change their fields are classes here, with the same fields and the same order of updates; each
method is proved against a function of the old state, and the properties of whole runs are lemmas about those functions.

| file | models |
|---|---|
| `Types.dfy` | bytes, 32- and 64-bit integers with wrap-around, hashes, addresses, transactions |
| `Blocks.dfy` | block headers and the bytes they are hashed over |
| `Chain.dfy`, `BlockStore.dfy` | one delivery to the block store: validation, filing, the orphan drain |
| `ChainRuns.dfy`, `OrphanEffects.dfy` | invariants of all runs, and what unvalidated orphans do to them |
| `SingleChain.dfy` | when the height index stays one linked chain |
| `Confluence.dfy`, `BlockTrees.dfy` | independence of the delivery order for a chain, and exactly when it holds for a tree of blocks |
| `MerkleSpec.dfy`, `MerklePadding.dfy` | roots and proofs as functions of the leaves, and which lists share a root |
| `MerkleHeap.dfy` | the tree of shared, mutable nodes |
| `ShardTree.dfy` | the hierarchy of shards with its parent pointers and depths |
| `ForestSpec.dfy`, `Forest.dfy` | splitting and merging shards, and the leaves this moves |
| `LedgerSpec.dfy`, `Ledger.dfy` | transfers, blocks and their atomic commit on copied account objects |
| `Accumulator.dfy` | the accumulator, its witnesses, and accumulating a state |
| `Clocks.dfy` | vector clocks and the conflict strategies |

SHA-256 is a parameter `H` from bytes to 32-byte hashes. No result assumes that it is injective: where collisions matter,
they are either excluded among the finitely many blocks of the run at hand (`CollisionFree`), or the lemma exhibits two
colliding inputs that were really hashed (`Collides`). Clocks, and whether storing succeeds, are parameters as well. Go
panics are outcomes of a method (`crashed`, `Panicked`, `None`), never preconditions. A locked public method is one step.

## What the code does that its comments do not say

- Both children of a split get the same ID, since both IDs are chosen before either child is filed
  (`merkle/adaptive_merkle_forest.go:117`, `:128`). The right child replaces the left one in the map, and the parent keeps
  all its leaves, so the upper half of the leaves is held twice (`Forests.AdaptiveMerkleForest.splitShard`).
- The next shard ID is computed in 32 bits. At the limit it is 0, and if there is a shard 0 a step overwrites it. The
  leaves are then kept only if other shards hold those at risk (`ForestSpec.StepKeepsContents`).
- The analysis takes shards for siblings if their records name the same parent, and the first shard names itself. The
  hierarchy compares parent nodes instead. So it goes stale when the first shard is merged with one split off it
  (`Forests.HierarchyGoesStale`); `Forests.AdaptiveMerkleForest.mergeShards` says exactly when a merge keeps the two in step.
- Merges decided on together can name a shard twice; the call then returns an error after having merged. With no shard
  overloaded this can happen exactly if two siblings are both light, due and in possession of a candidate
  (`Forests.AnalysisIsConsistent`), and it always does if they have no other sibling (`Forests.LightPairAlwaysClashes`).
- Orphans released from the pool are not validated, neither header nor height (`core/blockchain.go:178`). So an accepted
  delivery can store invalid blocks, exactly if it releases some (`OrphanEffects.ValidityAfterDelivery`), and leave gaps in
  the heights (`OrphanEffects.NoGapAtAnyStep`, `OrphanEffects.NoGapInTheEnd`); `OrphanEffects.UnvalidatedOrphan` has an input.
- Any stored block can be a parent; only the height is compared with the tip. So the height index need not be one linked
  chain (`SingleChain.OneChainAfterDelivery` says exactly when it stays one). The pool keeps one orphan per missing parent,
  and a block whose height was reached is never stored. So the order of delivery does not show exactly if no two blocks
  name the same parent (`BlockTrees.OrderIndependence`).
- State proofs are hashed without their length. The bytes of a header determine it exactly if there are fewer than 240 of
  them, 72 or more bytes of links being readable both as one link and as two (`Blocks.BytesDetermineHeader`).
- `Rollback` deletes the node of a hash that may still be a leaf, and the rebuild then dereferences nil; rolling back to one
  leaf keeps its parent pointer, so that the leaf's proof fails unless the leaf is also the root of the two
  (`MerkleHeap.RollbackThenProve`); rolling back to none keeps the root (`MerkleSpec.UndoLaw`).
- `Verify` hashes key and value together, while `GenerateProof` looks for the hash of the key alone. So proofs are accepted
  for the empty value, and for another one only on a hash collision (`MerkleSpec.ProofOfValueCollides`). Nothing marks where
  the key ends (`MerkleSpec.BoundaryIsOpen`).
- The accumulator's value is below 257, so its bytes are at most two, and converting them to a 32-byte hash panics
  (`state/state_manager.go:106`). As written no `UpdateState` ever commits (`Accumulators.NoUpdateCommits`). The ledger is
  therefore modelled for any root bytes: those shorter than 32 bytes give the outcome `Panicked`, longer ones proceed.
- Passing the accumulator's check does not show membership: some witness passes for every element whose prime is odd
  (`Accumulators.WhenSomeWitnessPasses`).
- `mergeStrategy` takes the state of whichever state is listed first (`VectorClocks.MergeConvergesOnStates`), and whether
  there is a causal violation can depend on the order of the list (`VectorClocks.VerdictIgnoresOrder` says when, and
  `VectorClocks.VerdictCanDependOnOrder` has states).
- Being unordered by `happensBefore` is not transitive (`VectorClocks.UnorderedIsNotTransitive`). Sorting by it is certain to
  end in a state that happened before no other exactly if it is transitive among the states given
  (`VectorClocks.CausalSortIsRight`). This is exact for what the library documents of its sort, not for the algorithm it runs.

## Model

| member | source | states |
|---|---|---|
| Blocks.BigEndianRoundTrip | core/block.go:13-22 | an integer that fits the width is read back from its bytes |
| Blocks.BigEndianDigit | core/block.go:13-22 | byte i of w is digit w - 1 - i in base 256, so the most significant byte comes first |
| Blocks.HashHeader | core/block.go:9-32 | the buffer filled field by field and link by link is hashed as the 168 fixed bytes followed by the links, whose places are those of the next two rows |
| Blocks.FixedLayout | core/block.go:13-22 | where each of the ten fixed fields is found in the bytes of every header: version in bytes 0 to 4, height in 4 to 12, and so on to the shard in 164 to 168 |
| Blocks.LinkLayout | core/block.go:25-29 | link k starts after 36 bytes and a state proof for each link before it; its shard, block hash and state proof follow in this order, for every header |
| Blocks.FixedPartInjective | core/block.go:13-22 | the 168 fixed bytes determine all ten fixed fields |
| Blocks.EqualEncodings | core/block.go:9-32 | two headers have equal bytes if and only if their fixed fields are equal and their link bytes are |
| Blocks.BytesDetermineHeader | core/block.go:25-31 | no other header has the same bytes if and only if there are fewer than 240 of them |
| Blocks.FewBytesDetermineLinks | core/block.go:25-29 | fewer than 72 bytes of links determine the links |
| Blocks.ManyBytesAreAmbiguous | core/block.go:25-29 | from 72 bytes on they are those of another link list too |
| Blocks.LinksAreAmbiguous | core/block.go:25-29 | for every header and two links there is another link list with the same header bytes |
| Chain.FirstBadTransaction | core/blockchain.go:105-110 | the error reported is that of the first bad transaction, and there is none exactly if all pass |
| Chain.WellFormedMeans | core/blockchain.go:116-153 | a block passes header and transaction checks if and only if version and difficulty are not 0, its time is before the clock plus 300 seconds in 64 bits, and every transaction has an ID, both addresses and a signature |
| Chain.ErrorsNameFaults | core/blockchain.go:100-153 | whichever check is reported, some field of the header or of a transaction has exactly that fault |
| Chain.ValidFromThenOn | core/blockchain.go:116-133 | below the end of the clock a valid block stays valid, and a block refused for its time alone turns valid 300 seconds before it |
| Chain.ValidForever | core/blockchain.go:123 | at the end of the clock the addition wraps: a valid block stays valid for good if and only if its time is the earliest there is |
| Chain.OrphanChainIsMaximal | core/blockchain.go:175-183 | the chain the drain follows is made of different pool entries, each the parent of the next, and cannot be extended |
| Chain.MaximalOrphanChainIsUnique | core/blockchain.go:175-183 | no other chain hanging from the same hash is maximal |
| Chain.DrainIsExact | core/blockchain.go:175-183 | a chain is the one drained if and only if it is maximal |
| Chain.DrainedIsPoolWithoutChain | core/blockchain.go:175-183 | the drain removes exactly the pool entries of that chain |
| Chain.ReleaseOne | core/blockchain.go:156-183 | removing an orphan, then filing it with all that hangs from it, is one round of the drain |
| BlockStore.Blockchain.constructor | core/blockchain.go:32-67 | a new chain holds exactly the genesis block, filed under its hash and height 0, with an empty pool; that block passes the header and transaction checks at every clock that does not wrap |
| Chain.FirstObstacle | core/blockchain.go:70-153 | the error of a delivery is the first obstacle in the order parent, version, time, difficulty, first incomplete transaction (ID, addresses, signature), height; none exactly if there is no obstacle |
| BlockStore.Blockchain.AddBlock | core/blockchain.go:70-87 | the whole new state; success exactly for accepted blocks, which have all their fields, the next height and a stored parent; which error otherwise, the fault it names, and the expected and given height |
| BlockStore.Blockchain.validateBlock | core/blockchain.go:90-113 | the first obstacle in the order parent, header, transactions; none exactly if the parent is stored and all is well formed; only a missing parent changes the pool, by that block |
| BlockStore.Blockchain.addBlock | core/blockchain.go:156-172 | stores the block and the maximal orphan chain under its hash; terminates because the pool shrinks |
| BlockStore.Blockchain.processOrphanBlocks | core/blockchain.go:175-183 | releases exactly the orphan chain; the second recursive call changes nothing |
| ChainRuns.CollisionFreeDistinguishes | core/block.go:9-32 | without collisions the hash determines height and parent of a block |
| ChainRuns.ReleaseKeepsSound | core/blockchain.go:156-183 | the drain keeps indexes, pool keys and groundedness |
| ChainRuns.DeliveryKeepsSound | core/blockchain.go:70-113 | every delivery keeps them, accepted or not |
| ChainRuns.RunIsSound | core/blockchain.go:70-183 | they hold after every run from genesis |
| ChainRuns.IndexAgreement | core/blockchain.go:156-166 | after every run: blocks are filed under their hash, the indexed heights are exactly the stored ones, entries name blocks of that height, the current height is the largest |
| ChainRuns.HeightLookup | core/blockchain.go:199-209 | after every run the lookup by height finds a block exactly for the stored heights, one of that height, never nil |
| ChainRuns.ParentReachability | core/blockchain.go:90-98 | after every run: each block above height 0 has its parent stored, and following parents ends at a block of height 0 |
| ChainRuns.RunIsSettled | core/blockchain.go:169-183 | after every run no orphan waits for a stored block, collisions or not |
| ChainRuns.RunOnlyGrows | core/blockchain.go:160-166 | over every run the current height never decreases and no stored hash disappears |
| ChainRuns.NodeIsSound | core/blockchain.go:32-67 | the same invariants for the node itself, from its own genesis block and with SHA-256 header hashes: after every run blocks are filed under the hash of their header bytes, grounded, and indexed by height, genesis included |
| OrphanEffects.ValidityAfterDelivery | core/blockchain.go:156-183 | after an accepted delivery all stored blocks are valid if and only if all released ones are |
| OrphanEffects.StoredBlocksHaveFields | core/blockchain.go:70-153 | over every run that releases no orphan, each stored block other than genesis has version, difficulty, and transactions with ID, addresses and signature |
| OrphanEffects.NoGapAtAnyStep | core/blockchain.go:156-183 | the heights stay without gaps at every step of the drain if and only if no released block is more than one above the highest before it |
| OrphanEffects.NoGapInTheEnd | core/blockchain.go:156-183 | they end without gaps if and only if every height between the new block and a released one is that of a released one |
| OrphanEffects.UnvalidatedOrphan | core/blockchain.go:178 | an orphan of height 7 without a version is stored with its parent of height 1, and the heights between are missing |
| SingleChain.ClimbKeepsOneChain | core/blockchain.go:156-166 | blocks that hang from the tip and from each other, each one higher, extend the chain of the height index |
| SingleChain.DownFromLast | core/blockchain.go:156-166 | if the index is one chain after filing such blocks, each is indexed at its height, one above the block before it |
| SingleChain.OneChainAfterDelivery | core/blockchain.go:70-183 | an accepted delivery keeps the height index one linked chain if and only if its block hangs from the tip and every released block is one above the one it hangs from |
| Confluence.ReleasedSegment | core/blockchain.go:175-183 | filing a missing block of a linked chain releases exactly the run of blocks delivered after it |
| Confluence.RepeatIsRefused | core/blockchain.go:79-83 | a repeated block of the chain changes nothing |
| Confluence.EarlyBlockWaits | core/blockchain.go:92-97 | a block above a gap only joins the pool |
| Confluence.NextBlockAdvances | core/blockchain.go:70-183 | the missing block moves the frontier to the end of the delivered run |
| Confluence.DeliveryOrderConfluence | core/blockchain.go:70-183 | any order, with repeats, of all blocks of a linked chain of valid blocks ends in the store that files them in order, with an empty pool |
| Confluence.RivalOrphansDoNotCommute | core/blockchain.go:95 | in the pool the later of two rivals wins: delivered before their parent in two orders they leave different stores |
| BlockTrees.MissedForever | core/blockchain.go:79-83 | once a block's parent is stored and its height reached, no later deliveries store the block |
| BlockTrees.TreeIsChain | core/blockchain.go:90-98 | a tree of blocks of which no two name the same parent is a single linked chain |
| BlockTrees.FirstRivalWins | core/blockchain.go:70-183 | of two rivals each can be made the one that is stored, and then the other is lost for good |
| BlockTrees.OrderIndependence | core/blockchain.go:70-183 | for a tree of valid blocks, all deliveries of every block, in any order and with repeats, end in the same store if and only if no two blocks name the same parent |
| MerkleSpec.NodeOfNextLevel | merkle/shard.go:267-289 | every node hashes the 64 bytes of its left and then its right child, or of its only child twice |
| MerkleSpec.SmallRoots | merkle/shard.go:252-302 | the roots of one, two and three leaves, as hashes of written-out bytes |
| MerkleSpec.LevelBinding | merkle/shard.go:267-289 | different levels of equal length have different levels above, or two colliding inputs |
| MerkleSpec.RootBinding | merkle/shard.go:252-302 | leaf lists of equal length with equal roots are equal, or building them hashes a collision |
| MerkleSpec.RepeatedLastLeaf | merkle/shard.go:273-276 | for odd length from 3 on, repeating the last leaf keeps the root |
| MerklePadding.PaddedRoot | merkle/shard.go:267-289 | a list has the root of its padding to a power of two, whose computation hashes nothing else |
| MerklePadding.EqualDepthBinding | merkle/shard.go:252-302 | lists of equal depth have equal roots if and only if their paddings agree, unless a collision is hashed |
| MerklePadding.AnyDepthBinding | merkle/shard.go:252-302 | for any two lists: the deeper one's level of the other's depth has the same padding, unless a collision is hashed |
| MerkleSpec.Verify | merkle/proof.go:102-122 | the loop accepts exactly the proofs whose recursive fold ends in the root |
| MerkleSpec.ShortProofs | merkle/proof.go:109-119 | the proofs with no and with one sibling that are accepted: a left sibling is hashed first, a right one second |
| MerkleSpec.BoundaryIsOpen | merkle/proof.go:109 | any split of the same bytes into key and value is accepted alike |
| MerkleSpec.FoldBinding | merkle/proof.go:113-119 | two walks along equal positions to the same hash start equal and meet equal siblings, or collide |
| MerkleSpec.ProofBinding | merkle/proof.go:102-122 | two accepted proofs with equal root and positions have equal bytes and siblings, or hash a collision |
| MerkleSpec.PathReachesRoot | merkle/shard.go:328-353 | every path along the tree, from a leaf or from an inner node with its hash, folds to the root |
| MerkleSpec.ProofRoundTrip | merkle/proof.go:102-122 | a proof along the tree is accepted for the key and the empty value if and only if it carries the tree's root |
| MerkleSpec.ProofOfValueCollides | merkle/proof.go:109 | if it is accepted for a nonempty value too, checking it hashes a collision |
| MerkleSpec.ProofSoundness | merkle/proof.go:102-122 | a proof accepted along the positions of leaf i proves leaf i, or hashes a collision |
| MerkleSpec.DepthIsLogarithmic | merkle/shard.go:264-296 | n leaves have d levels above them with 2^(d-1) < n <= 2^d |
| MerkleSpec.PathLength | merkle/shard.go:328-353 | a proof for a leaf that is no inner hash has exactly that length |
| MerkleSpec.UndoLaw | merkle/shard.go:363-398 | rollback undoes an append if and only if the leaf is new and the root was current; it crashes if and only if the leaf is not new |
| MerkleSpec.ProofAfterRollbackToOne | merkle/proof.go:102-122 | a path of a two-leaf tree, carried with the root of the first leaf alone, is accepted if and only if the two hash to that leaf |
| MerkleHeap.LinkedHashes | merkle/shard.go:265-293 | the hashes of linked levels of nodes are those of the level function |
| MerkleHeap.MerkleTree.constructor | merkle/shard.go:219-224 | an empty tree with the zero root |
| MerkleHeap.MerkleTree.LinkPair | merkle/shard.go:268-291 | the new parent of a pair, both pointing to it, filed under its hash |
| MerkleHeap.MerkleTree.LinkNext | merkle/shard.go:267-293 | one more pair linked; every node below keeps pointing to the last parent it was given |
| MerkleHeap.MerkleTree.BuildLevel | merkle/shard.go:265-293 | a level of distinct fresh parents, every node below pointing to one of its own parents, shared nodes included |
| MerkleHeap.MerkleTree.RaiseAll | merkle/shard.go:264-296 | a tower of linked levels whose top carries the root of the leaf hashes |
| MerkleHeap.MerkleTree.buildTree | merkle/shard.go:252-302 | the root is a function of the leaf list alone, whatever nodes and pointers were there before |
| MerkleHeap.MerkleTree.AddLeaf | merkle/shard.go:227-241 | the leaf is appended, the root is that of the new list, and the pointers are those of the new build |
| MerkleHeap.MerkleTree.ApplyOperation | merkle/shard.go:363-382 | the same for the hash of data and commitment |
| MerkleHeap.MerkleTree.Rollback | merkle/shard.go:385-398 | drops the last leaf, or crashes exactly when its hash is also an earlier leaf, with the leaf gone and the root kept; from two leaves to one the pointers stay those of the two, or are rebuilt if the leaf's node was their root; with more leaves left they are rebuilt |
| MerkleHeap.MerkleTree.GenerateProof | merkle/shard.go:308-360 | a proof exactly for hashes in the leaf list; the pointer walk ends; the proof is accepted exactly if the last build has the current root; from two leaves on, the path of a hash that is no inner hash has the length of the tree's depth |
| MerkleHeap.TopCarriesRoot | merkle/shard.go:264-301 | a node of the tree without parent carries the root of the leaves, even when it is also a leaf's node |
| MerkleHeap.RollbackThenProve | merkle/shard.go:308-398 | after a rollback every leaf left has a proof, which is accepted unless two leaves became one; then if and only if the first leaf is the root of the two |
| MerkleHeap.MerkleTree.WalkUp | merkle/shard.go:332-353 | walking parents from any node of the tree collects an authentication path of it |
| MerkleHeap.StepUp | merkle/shard.go:336-352 | one step of the walk meets the sibling and side of the authentication path, even for nodes that sit in two places |
| ShardTrees.WalkReachesRoot | merkle/shard.go:18-24 | walking parents reaches the root after exactly Depth steps, and leaves the tree with one more |
| ShardTrees.RootIsOnTop | merkle/shard.go:18-24 | only the root has no parent, and only it has depth 0 |
| ShardTrees.KeepOthers | merkle/shard.go:113-118 | keeps exactly the children with other IDs, in their order |
| ShardTrees.KeptConcat | merkle/shard.go:113-118 | leaving out children goes child by child: that of two lists is that of each |
| ShardTrees.ShardTree.AddRootNode | merkle/shard.go:51-61 | the first root, without a parent and at depth 0, makes the hierarchy valid |
| ShardTrees.ShardTree.AddChildNodes | merkle/shard.go:64-90 | two new children one level down; the shape of the whole hierarchy is kept; with equal IDs the map holds the right child |
| ShardTrees.ShardTree.ReplaceNodes | merkle/shard.go:93-128 | one node in place of two siblings at their depth, shape kept; a nil parent is dereferenced if and only if both IDs are the root's |
| ShardTrees.ShardTree.MergeChildren | merkle/shard.go:105-127 | the merged node comes last among the remaining children, at the depth of the node it replaces; the shape of the hierarchy is kept |
| ForestSpec.HalvesMakeWhole | merkle/adaptive_merkle_forest.go:290-301 | the two halves of a split, in order, are the whole list |
| ForestSpec.NewShardHolds | merkle/adaptive_merkle_forest.go:286-322 | the new shard of a split holds the upper half of the leaves, rounded up, in order; that of a merge all leaves of the first shard and then of the second |
| ForestSpec.StepIsSafe | merkle/adaptive_merkle_forest.go:107-188 | below the 32-bit limit a split or merge uses a new ID, overwrites nothing, raises the largest ID by one and keeps the set of leaves |
| ForestSpec.RunKeepsContents | merkle/adaptive_merkle_forest.go:73-188 | over every run the set of leaves is kept and the largest ID counts the successful steps |
| ForestSpec.NoIDReturns | merkle/adaptive_merkle_forest.go:274-283 | an ID held after a run but not after its first k steps is above every ID held up to then |
| ForestSpec.NextIDIsFree | merkle/adaptive_merkle_forest.go:274-283 | the next ID is free if and only if the limit is not reached or there is no shard 0 |
| ForestSpec.StepKeepsContents | merkle/adaptive_merkle_forest.go:107-188 | a split or merge keeps the set of leaves if and only if the next ID is free or other shards hold the leaves at risk |
| ForestSpec.MergesGoThrough | merkle/adaptive_merkle_forest.go:91-102 | merges of shards that exist all find them if and only if no shard is named twice |
| ForestSpec.LimitOverwritesShardZero | merkle/adaptive_merkle_forest.go:274-283 | at the limit a split overwrites shard 0 and its leaves are lost |
| ForestSpec.AddedOncePerPlace | merkle/adaptive_merkle_forest.go:262-268 | a shard listed at n places gets the leaf n times |
| Forests.WhatIsAsked | merkle/shard.go:141-198 | only shards left alone for five minutes are named; splits only above load 0.9, merges only below 0.2, with a shard of the same parent and less than 0.8 between the two |
| Forests.WhatMustBeAsked | merkle/shard.go:141-198 | every such shard above 0.9 is split, and every one below 0.2 is merged if it has a candidate and 0 is none |
| Forests.findMergeCandidate | merkle/shard.go:178-198 | what it finds is a light sibling; 0 means none, unless shard 0 itself is one |
| Forests.AnalyzeShardLoads | merkle/shard.go:141-175 | all operations are justified, at most one per shard; every overloaded shard that is due is split, and every light one that is due is merged if it has a candidate and 0 is none |
| Forests.AnalysisCompletes | merkle/shard.go:141-175 | justified merges of different shards are the start of some whole analysis |
| Forests.AnalysisIsConsistent | merkle/shard.go:141-198 | with no shard overloaded, every analysis names each shard at most once if and only if no two siblings may both be asked to merge |
| Forests.LightPairAlwaysClashes | merkle/shard.go:141-198 | for two light siblings that are due and have no other sibling, every analysis names one of them twice |
| Forests.splitStateTree | merkle/adaptive_merkle_forest.go:286-304 | lower half left, upper half right, both trees sound, the parent untouched |
| Forests.mergeStateTrees | merkle/adaptive_merkle_forest.go:307-322 | all leaves of the first tree, then of the second, and the root of that list |
| Forests.SplitThenMerge | merkle/adaptive_merkle_forest.go:286-322 | splitting a nonempty tree into two new ones and merging them gives back leaves, order and root |
| Forests.AdaptiveMerkleForest.constructor | merkle/adaptive_merkle_forest.go:42-70 | one empty shard, number 0, without load; its node is the root of the hierarchy and the only one |
| Forests.AdaptiveMerkleForest.generateShardID | merkle/adaptive_merkle_forest.go:274-283 | one more than the largest ID, in 32 bits |
| Forests.AdaptiveMerkleForest.splitShard | merkle/adaptive_merkle_forest.go:109-152 | the step function's split on the held leaves; exactly one new entry, the right child with half the load, every other shard and tree unchanged; in the hierarchy exactly one new ID, under the node of the split shard, which gets two children; if shards and hierarchy had the same IDs they still do |
| Forests.AdaptiveMerkleForest.mergeShards | merkle/adaptive_merkle_forest.go:155-188 | the step function's merge; the load, parent and time of the merged shard, all other shards the same; an error exactly when a shard is missing; a crash exactly on merging the root of the hierarchy with itself; one node in place of two siblings in the hierarchy, else nothing there; if shards and hierarchy had the same IDs they still do if and only if the two nodes are siblings, no crash, and the next ID is none of the two |
| Forests.HierarchyGoesStale | merkle/adaptive_merkle_forest.go:155-188 | merging the first shard with the one split off it leaves shard 2 alone, and the hierarchy with 0 and 1 |
| Forests.AdaptiveMerkleForest.RunOperations | merkle/adaptive_merkle_forest.go:91-102 | the operations in order, as a run of steps, up to the first that does not find its shards; all of them exactly on success |
| Forests.AdaptiveMerkleForest.DynamicShardRebalancing | merkle/adaptive_merkle_forest.go:73-105 | one split of an overloaded shard if there is one, after which shards and hierarchy still agree if they did, else the merges of the analysis; a run of steps that never crashes; below the ID limit it succeeds if no two siblings may both be asked to merge, and in any case exactly if the analysis names no shard twice |
| Forests.AdaptiveMerkleForest.ApplyAt | merkle/adaptive_merkle_forest.go:263 | the operation's leaf is appended to one tree; every other tree, and the soundness of all, is kept |
| Forests.AdaptiveMerkleForest.ApplyToAll | merkle/adaptive_merkle_forest.go:262-268 | each shard gets the leaf as often as it is listed |
| Forests.AdaptiveMerkleForest.CrossShardOperation | merkle/adaptive_merkle_forest.go:244-271 | all or nothing: an error exactly if some listed shard is missing, and then no tree has changed; else every listed shard has the leaf |
| LedgerSpec.TransferAllConcat | state/state_manager.go:97-102 | applying two lists in turn is applying their concatenation |
| LedgerSpec.WhenTransfersGoThrough | state/state_manager.go:148-163 | for any ledger: a list goes through if and only if each sender is an account or was paid before, carries its nonce plus the number it sent before, and pays no more than its balance by then, in 64 bits |
| LedgerSpec.WhenTransfersAreAffordable | state/state_manager.go:148-163 | for a supply below 2^64: if and only if each sender exists by then, the nonces count up, and no value exceeds the old balance plus the net income so far |
| LedgerSpec.TotalWithout | state/state_manager.go:31 | the supply is a sum that does not depend on the order of counting |
| LedgerSpec.TransferKeepsTotal | state/state_manager.go:165-179 | a transfer keeps the supply, self-transfers and new receivers included, unless the receiver's balance overflows, which costs 2^64 |
| LedgerSpec.SupplyConservation | state/state_manager.go:97-102 | a list of transactions keeps the supply if and only if nothing overflows, and nothing does if the supply is below 2^64 |
| LedgerSpec.TransferMovesValue | state/state_manager.go:165-179 | what one transfer adds to or takes from each account |
| LedgerSpec.BalancesFollowPayments | state/state_manager.go:148-182 | every balance is the old one plus what was received less what was paid, modulo 2^64, exactly if nothing overflows |
| LedgerSpec.OnlyReceiversAppear | state/state_manager.go:169-178 | the accounts afterwards are those before and the receivers; code and storage never change |
| LedgerSpec.NonceCountsSent | state/state_manager.go:155-167 | every nonce grows by exactly the number of transactions sent, modulo 2^64 |
| LedgerSpec.ConsecutiveNonces | state/state_manager.go:155-158 | the transactions of one sender carry consecutive nonces in order |
| LedgerSpec.NoReplay | state/state_manager.go:155-167 | two transactions of a sender share a nonce if and only if 2^64 divides the number that sender made in between |
| LedgerSpec.ResubmissionFails | state/state_manager.go:97-102 | a list of fewer than 2^64 transactions that went through is refused when submitted again |
| LedgerSpec.RunIsOneTransfer | state/state_manager.go:90-145 | after any run of blocks the ledger is that of the committed transactions alone, made in one go |
| LedgerSpec.RunConservesSupply | state/state_manager.go:90-145 | no run of blocks changes a supply below 2^64 |
| LedgerSpec.RunCountsNonces | state/state_manager.go:90-145 | over any run nonces count committed transactions |
| LedgerSpec.RunNeverReplays | state/state_manager.go:90-145 | no (sender, nonce) pair is committed twice in a run of at most 2^64 committed transactions |
| Ledgers.CopyAccounts | state/state_manager.go:242-254 | new account objects, pairwise different, equal in value, storage included |
| Ledgers.CopyContracts | state/state_manager.go:256-268 | new contract objects, equal in value |
| Ledgers.CopyShards | state/state_manager.go:270-282 | new shard states, equal in value |
| Ledgers.copyState | state/state_manager.go:234-285 | a copy equal in value that shares no account, contract or shard object with the original |
| Ledgers.Credit | state/state_manager.go:169-179 | the receiver, perhaps the sender's own object, perhaps a new one, is credited; accounts stay separate |
| Ledgers.applyTransaction | state/state_manager.go:148-182 | through the account pointers exactly the transfer on the ledger, or, with nothing touched: unknown sender, a nonce other than the account's, or a value above the balance |
| Ledgers.ApplyAll | state/state_manager.go:97-102 | succeeds exactly if no transaction is refused, and then leaves the ledger of all transfers |
| Ledgers.StateManager.UpdateState | state/state_manager.go:90-145 | all or nothing: on any error the state, all its objects and the history are unchanged; on commit the new state is separate from the old, with the transfers made, contracts and shards equal, one snapshot added, marked compressed at every 1000th height and archived at every 10000th |
| LedgerSpec.WhatStopsAnUpdate | state/state_manager.go:90-145 | each outcome if and only if its obstacle is there and none before it; storing old states can only fail at every 1000th and 10000th height |
| Accumulators.PrimeExists | crypto/accumulator.go:79-82 | the upward search ends at the latest at 101 |
| Accumulators.hashToPrime | crypto/accumulator.go:70-85 | the least prime not below the seed, for every element; the seed is that of the next row |
| Accumulators.PrimeFromFirstBytes | crypto/accumulator.go:70-82 | if the first eight bytes of the hash are the number n, the prime is the least one from n mod 100 plus 2 on |
| Accumulators.SameFirstBytesSamePrime | crypto/accumulator.go:70-82 | elements whose hashes agree on the first eight bytes have the same prime |
| Accumulators.FirstElement | crypto/accumulator.go:18-49 | an element whose hash starts with the number 5 has prime 7, and alone gives the value 131 |
| Accumulators.AccumulatedIsOnePower | crypto/accumulator.go:34-49 | after any list of elements the value is 3 to the product of their primes, mod 257 |
| Accumulators.OrderIndependence | crypto/accumulator.go:34-49 | every permutation of the elements gives the same value |
| Accumulators.RaisedWitnessIsAccepted | crypto/accumulator.go:39-62 | the value before an element, raised to the primes added later, satisfies the verification equation |
| Accumulators.BeforeAndAfter | crypto/accumulator.go:44-48 | the witness kept is that of the last time the element was added |
| Accumulators.Accumulator.Add | crypto/accumulator.go:34-49 | one more element; the witness kept is a copy of the old value, other witnesses untouched by the change in place |
| Accumulators.Accumulator.Verify | crypto/accumulator.go:52-62 | accepts exactly the non-nil witnesses that raised to the element's prime give the value |
| Accumulators.StoredWitnessIsAccepted | crypto/accumulator.go:44-62 | in every state the witness stored for an element, raised to all primes added after it, passes |
| Accumulators.OrderOfGenerator | crypto/accumulator.go:24-27 | 3 to the 256 is 1 modulo 257 |
| Accumulators.OddPrimesAlwaysPass | crypto/accumulator.go:52-62 | for every element with an odd prime some witness passes in every state, added or not |
| Accumulators.WhenSomeWitnessPasses | crypto/accumulator.go:52-62 | some witness passes for an element if and only if its prime is odd or that of some added element is 2 |
| Accumulators.MapProductWithout | state/state_manager.go:189-198 | the product over a map's entries does not depend on the order of iteration |
| Accumulators.MapProductOfOne | state/state_manager.go:189-198 | an entry counts as the prime of its address followed by its encoded value |
| Accumulators.AddEntries | state/state_manager.go:189-192 | whatever order the iteration takes, the primes multiply to the product over the map |
| Accumulators.updateAccumulator | state/state_manager.go:185-201 | for any encodings, the value is a function of the accounts and contracts alone, not of the iteration order |
| Accumulators.BytesOfValue | crypto/accumulator.go:65-67 | the root reads back as the value, most significant byte first, without leading zeros |
| Accumulators.RootIsTooShort | crypto/accumulator.go:65-67 | the value has at most two bytes |
| Accumulators.NoUpdateCommits | state/state_manager.go:105-106 | with the root of any accumulator every update panics or is refused, and leaves the ledger as it was |
| VectorClocks.happensBefore | cap/conflict_resolver.go:274-293 | the loop decides: within the other clock, and strictly behind it on some node both know |
| VectorClocks.WithinIsPartialOrder | cap/conflict_resolver.go:279-283 | key inclusion with pointwise order is a partial order |
| VectorClocks.HappensBeforeIsStrictOrder | cap/conflict_resolver.go:274-293 | irreflexive, asymmetric and transitive |
| VectorClocks.NewNodesAloneDoNotOrder | cap/conflict_resolver.go:284-292 | a clock within another is not before it if and only if the other only adds nodes |
| VectorClocks.UnorderedIsNotTransitive | cap/conflict_resolver.go:265-272 | three clocks for which incomparability is not transitive |
| VectorClocks.MergeInto | cap/conflict_resolver.go:255-259 | the inner loop computes the join with one clock in any iteration order |
| VectorClocks.mergeVectorClocks | cap/conflict_resolver.go:249-263 | the nested loops compute the join of all clocks |
| VectorClocks.JoinIsLeastUpperBound | cap/conflict_resolver.go:249-263 | the merged clock is within a clock if and only if all input clocks are |
| VectorClocks.JoinIgnoresOrder | cap/conflict_resolver.go:249-263 | lists with the same set of clocks merge to the same clock |
| VectorClocks.SortSlice | cap/conflict_resolver.go:158-160 | what the library sort is relied on for: a permutation, sorted whenever the relation is a strict weak order on the list |
| VectorClocks.lastWriterWins | cap/conflict_resolver.go:156-170 | the list is permuted into descending timestamps and a state with the latest one is returned; an empty list panics |
| VectorClocks.MayResolveToLatest | cap/conflict_resolver.go:156-170 | the lists the sort may return resolve to exactly the states with the latest timestamp |
| VectorClocks.LastWriterConverges | cap/conflict_resolver.go:156-170 | on distinct timestamps every order of the states, and every sort, gives the same state and clock |
| VectorClocks.LastWriterIsDetermined | cap/conflict_resolver.go:156-170 | all orders and sorts give the same outcome if and only if the latest states agree on state and clock |
| VectorClocks.mergeStrategy | cap/conflict_resolver.go:172-181 | the first state with the merged clock; an empty list panics |
| VectorClocks.MergeConvergesOnClocks | cap/conflict_resolver.go:172-181 | every order of the states gives the same clock |
| VectorClocks.MergeConvergesOnStates | cap/conflict_resolver.go:175 | every order gives the same state if and only if all states are equal |
| VectorClocks.OrderedIsWeakOrder | cap/conflict_resolver.go:267-269 | on pairwise ordered clocks the relation can be sorted by |
| VectorClocks.CausalSortIsRight | cap/conflict_resolver.go:265-272 | every list the sort may return ends in a state that happened before no other, if and only if being unordered is transitive among the states |
| VectorClocks.BeforeNoneIsLatest | cap/conflict_resolver.go:183-195 | on pairwise ordered clocks that state is the one all others happened before |
| VectorClocks.causalStrategy | cap/conflict_resolver.go:183-195 | returns one of the states: one that happened before no other where the sort can find it, and on pairwise ordered clocks the causally latest |
| VectorClocks.CausallyLatestIsJoin | cap/conflict_resolver.go:183-263 | that state is unique and its clock is the merged clock |
| VectorClocks.OwnNodesDoNotCount | cap/conflict_resolver.go:234-247 | a clock is ahead of another if and only if its part on the nodes both know is not within the other |
| VectorClocks.areClocksCausallyConsistent | cap/conflict_resolver.go:234-247 | false exactly if the first clock is ahead on a node both know |
| VectorClocks.hasCausalViolation | cap/conflict_resolver.go:220-232 | true exactly if some state is ahead of one listed later |
| VectorClocks.NoViolationMeansCausalOrder | cap/conflict_resolver.go:220-247 | among pairwise ordered clocks there is no violation if and only if the list is in causal order |
| VectorClocks.VerdictIgnoresOrder | cap/conflict_resolver.go:220-247 | for any states, the verdict is the same for all orders if and only if none is ahead of another, or some selection of them has none that may come first |
| VectorClocks.VerdictCanDependOnOrder | cap/conflict_resolver.go:220-247 | two states with different counts for one node are a violation in one order only |

## Left out

- Sockets, message encodings, goroutines, tickers and the command line (`network/`, `main.go`).
- Consensus: quorum, signature and proof-of-work checks are constant stubs, leader selection needs elliptic curves and
  floating point; reputation scores, zero-knowledge proofs and entropy of conflicts would add easy or numeric members.
- Pointers to blocks: blocks are values, so a caller that changes a block after delivering it is not captured.
- Shard chains inside the block store: the map is created and never used.
- AMQ filters and compressed proofs: the filter is probabilistic and keyed by hashes that are not modelled, and sampling
  works on floating point; proofs here have no filter and keep all their nodes.
- MerkleSpec.ProofRoundTrip: says nothing about the IsLeaf marks of proof nodes, which verification never reads.
- MerkleHeap.MerkleTree.Rollback: after a crash only the leaf list and the root are specified, not the nodes and pointers that a
  partial rebuild set.
- Forests.AdaptiveMerkleForest.CrossShardOperation: the commitment is a parameter, since it is blinded at random;
  the rollback after a failed operation is left out, since applying an operation never fails.
- Proof generation of the forest: it adds the key's hash to one tree, takes that tree's proof, which is modelled, and
  compresses it, which is not.
- The ChildShards field of a shard and the load factor and root of hierarchy nodes: written or never set, and never read.
- Forests.AnalyzeShardLoads: load factors are reals, so rounding of the sum of two loads is not captured.
- State root, compression, archive and database contents: bytes in map order, JSON and gzip. Whether each step fails is a
  parameter, and so are the root bytes.
- Ledgers.CopyShards: the storage map inside an account of a shard state is shared by the copy in Go; nothing changes it,
  and here accounts of shard states are values.
- Accumulators.updateAccumulator: the encodings of accounts and contracts are parameters; JSON itself is not modelled.
- Accumulators.hashToPrime: the library's primality test is exact below 2^64 and is modelled as primality.
- Nil vector clocks, on which merging and comparing dereference nil; and that the strategies return the winner's clock by
  pointer: clocks are values here.
- VectorClocks.causalStrategy: where being unordered is not transitive it promises no more than one of the states, because
  the library sort does not.
