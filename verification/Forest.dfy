/** The forest of shards: splitting, merging and operating on Merkle trees that live side by side in memory. */
module Forests {
  import opened Types
  import opened MerkleSpec
  import opened MerkleHeap
  import opened ShardTrees
  import opened ForestSpec

  class MerkleShard {
    const id: uint32
    const stateTree: MerkleTree
    const parentShard: uint32
    const lastRebalanced: int
    var loadFactor: real

    constructor (id: uint32, stateTree: MerkleTree, loadFactor: real, parentShard: uint32, lastRebalanced: int)
      ensures this.id == id && this.stateTree == stateTree && this.loadFactor == loadFactor
      ensures this.parentShard == parentShard && this.lastRebalanced == lastRebalanced
    {
      this.id, this.stateTree, this.loadFactor := id, stateTree, loadFactor;
      this.parentShard, this.lastRebalanced := parentShard, lastRebalanced;
    }
  }

  type Shards = map<uint32, MerkleShard>

  // ---- deciding what to rebalance ------------------------------------------------------------

  datatype RebalanceOperation = Split(id: uint32) | Merge(id: uint32, target: uint32)

  const LOAD_THRESHOLD: real := 0.8
  const SPLIT_THRESHOLD: real := 0.9
  const MERGE_THRESHOLD: real := 0.2
  const REBALANCE_INTERVAL: int := 300_000_000_000

  /** A sibling of the shard that is light enough to be merged with it. */
  ghost predicate MergeCandidate(shards: Shards, id: uint32, other: uint32)
    reads shards.Values
  {
    id in shards && other in shards && other != id && shards[other].parentShard == shards[id].parentShard
    && shards[id].loadFactor + shards[other].loadFactor < LOAD_THRESHOLD
  }

  /** 0 means that there is none; a candidate with ID 0 therefore cannot be told from no candidate. */
  method findMergeCandidate(shards: Shards, shardID: uint32) returns (found: uint32)
    requires shardID in shards
    ensures found != 0 ==> MergeCandidate(shards, shardID, found)
    ensures found == 0 && !MergeCandidate(shards, shardID, 0) ==> forall id :: !MergeCandidate(shards, shardID, id)
  {
    var shard := shards[shardID];
    var todo := shards.Keys;
    while todo != {}
      invariant todo <= shards.Keys
      invariant forall id | id in shards && id !in todo :: !MergeCandidate(shards, shardID, id)
      decreases todo
    {
      var id :| id in todo;
      todo := todo - {id};
      if id == shardID {
        continue;
      }
      var candidate := shards[id];
      if candidate.parentShard == shard.parentShard {
        var combinedLoad := shard.loadFactor + candidate.loadFactor;
        if combinedLoad < LOAD_THRESHOLD {
          return id;
        }
      }
    }
    found := 0;
  }

  /** What may be asked of a shard at time `now`. */
  ghost predicate Justified(shards: Shards, now: int, op: RebalanceOperation)
    reads shards.Values
  {
    && op.id in shards && now - shards[op.id].lastRebalanced >= REBALANCE_INTERVAL
    && match op
       case Split(id) => shards[id].loadFactor > SPLIT_THRESHOLD
       case Merge(id, target) =>
         shards[id].loadFactor < MERGE_THRESHOLD && target != 0 && MergeCandidate(shards, id, target)
  }

  /** A light shard that is due and has a candidate, none of them shard 0. */
  ghost predicate MustMerge(shards: Shards, now: int, id: uint32)
    reads shards.Values
  {
    && id in shards && now - shards[id].lastRebalanced >= REBALANCE_INTERVAL && shards[id].loadFactor < MERGE_THRESHOLD
    && !MergeCandidate(shards, id, 0) && exists other :: MergeCandidate(shards, id, other)
  }

  ghost predicate AskedToMerge(ops: seq<RebalanceOperation>, id: uint32) {
    exists target :: Merge(id, target) in ops
  }

  /**
   * At most one operation per shard, each justified; a split for every overloaded shard that is due, and a merge for every
   * light one that must be merged.
   */
  ghost predicate IsAnalysis(shards: Shards, now: int, ops: seq<RebalanceOperation>)
    reads shards.Values
  {
    && (forall op | op in ops :: Justified(shards, now, op))
    && |ops| <= |shards| && (forall i, j | 0 <= i < j < |ops| :: ops[i].id != ops[j].id)
    && (forall id | id in shards && Justified(shards, now, Split(id)) :: Split(id) in ops)
    && (forall id | MustMerge(shards, now, id) :: AskedToMerge(ops, id))
  }

  /** What may be asked: splits above 0.9; merges below 0.2 with another sibling, together below 0.8; both only every 5 minutes. */
  lemma {:induction false} WhatIsAsked(shards: Shards, now: int, ops: seq<RebalanceOperation>, op: RebalanceOperation)
    requires IsAnalysis(shards, now, ops) && op in ops
    ensures op.id in shards && now - shards[op.id].lastRebalanced >= 5 * 60 * 1_000_000_000
    ensures match op
            case Split(id) => shards[id].loadFactor > 0.9
            case Merge(id, target) =>
              && target != id && target != 0 && target in shards && shards[id].loadFactor < 0.2
              && shards[target].parentShard == shards[id].parentShard
              && shards[id].loadFactor + shards[target].loadFactor < 0.8
  {
  }

  /** What must be asked: a split of every shard above 0.9, and a merge of every one below 0.2 that has a candidate but not 0. */
  lemma {:induction false} WhatMustBeAsked(shards: Shards, now: int, ops: seq<RebalanceOperation>, id: uint32)
    requires IsAnalysis(shards, now, ops)
    requires id in shards && now - shards[id].lastRebalanced >= 5 * 60 * 1_000_000_000
    ensures shards[id].loadFactor > 0.9 ==> Split(id) in ops
    ensures shards[id].loadFactor < 0.2
            && (exists other :: other in shards && other != id && shards[other].parentShard == shards[id].parentShard
                                && shards[id].loadFactor + shards[other].loadFactor < 0.8)
            && !(id != 0 && 0 in shards && shards[0].parentShard == shards[id].parentShard
                 && shards[id].loadFactor + shards[0].loadFactor < 0.8)
            ==> AskedToMerge(ops, id)
  {
    if other :| other in shards && other != id && shards[other].parentShard == shards[id].parentShard
                && shards[id].loadFactor + shards[other].loadFactor < 0.8 {
      assert MergeCandidate(shards, id, other);
    }
  }

  method AnalyzeShardLoads(shards: Shards, now: int) returns (ops: seq<RebalanceOperation>)
    ensures IsAnalysis(shards, now, ops)
  {
    ops := [];
    var todo := shards.Keys;
    while todo != {}
      invariant todo <= shards.Keys && |ops| + |todo| <= |shards|
      invariant forall op | op in ops :: Justified(shards, now, op) && op.id !in todo
      invariant forall i, j | 0 <= i < j < |ops| :: ops[i].id != ops[j].id
      invariant forall id | id in shards && id !in todo && Justified(shards, now, Split(id)) :: Split(id) in ops
      invariant forall id | id !in todo && MustMerge(shards, now, id) :: AskedToMerge(ops, id)
      decreases todo
    {
      var shardID :| shardID in todo;
      todo := todo - {shardID};
      var shard := shards[shardID];
      ghost var asked := ops;
      if now - shard.lastRebalanced < REBALANCE_INTERVAL {
        continue;
      }
      if shard.loadFactor > SPLIT_THRESHOLD {
        ops := ops + [Split(shardID)];
      } else if shard.loadFactor < MERGE_THRESHOLD {
        var targetShard := findMergeCandidate(shards, shardID);
        if targetShard != 0 {
          ops := ops + [Merge(shardID, targetShard)];
          assert Merge(shardID, targetShard) in ops;
        }
      }
      forall id | id !in todo && MustMerge(shards, now, id) ensures AskedToMerge(ops, id) {
        if id != shardID {
          var target :| Merge(id, target) in asked;
          assert Merge(id, target) in ops;
        }
      }
    }
  }

  function StepOf(op: RebalanceOperation): Step {
    match op
    case Split(id) => SplitStep(id)
    case Merge(id, target) => MergeStep(id, target)
  }

  function StepsOf(ops: seq<RebalanceOperation>): (steps: seq<Step>)
    ensures |steps| == |ops|
  {
    seq<Step>(|ops|, i requires 0 <= i < |ops| => StepOf(ops[i]))
  }

  // ---- when the analysis names a shard twice ---------------------------------------------------

  ghost predicate NoneOverloaded(shards: Shards)
    reads shards.Values
  {
    forall id | id in shards :: shards[id].loadFactor <= SPLIT_THRESHOLD
  }

  /** The analysis may ask to merge the shard: it is light, it is due, and it has a candidate other than shard 0. */
  ghost predicate MayMerge(shards: Shards, now: int, id: uint32)
    reads shards.Values
  {
    exists target: uint32 :: Justified(shards, now, Merge(id, target))
  }

  /** Two siblings that the analysis may both ask to merge. */
  ghost predicate Rivals(shards: Shards, now: int, a: uint32, b: uint32)
    reads shards.Values
  {
    && a != b && a in shards && b in shards && shards[a].parentShard == shards[b].parentShard
    && MayMerge(shards, now, a) && MayMerge(shards, now, b)
  }

  ghost predicate HasRivals(shards: Shards, now: int)
    reads shards.Values
  {
    exists a, b :: Rivals(shards, now, a, b)
  }

  /** What the analysis has decided when the shards `todo` are still to be looked at. */
  ghost predicate PartOfAnalysis(shards: Shards, now: int, ops: seq<RebalanceOperation>, todo: set<uint32>)
    reads shards.Values
  {
    && todo <= shards.Keys && |ops| + |todo| <= |shards|
    && (forall op | op in ops :: Justified(shards, now, op) && op.id !in todo)
    && (forall i, j | 0 <= i < j < |ops| :: ops[i].id != ops[j].id)
    && (forall id | id !in todo && MustMerge(shards, now, id) :: AskedToMerge(ops, id))
  }

  lemma {:induction false} AnalysisCompletes(shards: Shards, now: int, ops: seq<RebalanceOperation>, todo: set<uint32>)
    returns (all: seq<RebalanceOperation>)
    requires NoneOverloaded(shards) && PartOfAnalysis(shards, now, ops, todo)
    ensures IsAnalysis(shards, now, all) && ops <= all
    decreases |todo|
  {
    if todo == {} {
      all := ops;
    } else {
      var id :| id in todo;
      var more := ops;
      if MustMerge(shards, now, id) {
        var target :| MergeCandidate(shards, id, target);
        more := ops + [Merge(id, target)];
      }
      PartGrows(shards, now, ops, todo, id, more);
      all := AnalysisCompletes(shards, now, more, todo - {id});
    }
  }

  lemma {:induction false} PartGrows(shards: Shards, now: int, ops: seq<RebalanceOperation>, todo: set<uint32>, id: uint32,
                                     more: seq<RebalanceOperation>)
    requires PartOfAnalysis(shards, now, ops, todo) && id in todo
    requires (more == ops && !MustMerge(shards, now, id))
             || (exists target :: more == ops + [Merge(id, target)] && Justified(shards, now, Merge(id, target)))
    ensures PartOfAnalysis(shards, now, more, todo - {id})
  {
  }

  /** Of two rivals one can choose the other. */
  lemma {:induction false} RivalChoosesRival(shards: Shards, now: int, a: uint32, b: uint32)
    requires Rivals(shards, now, a, b) && b != 0
    ensures Justified(shards, now, Merge(a, b))
  {
  }

  lemma {:induction false} TwoAskedFirst(shards: Shards, now: int, a: uint32, b: uint32, t: uint32)
    requires a != b && Justified(shards, now, Merge(a, b)) && Justified(shards, now, Merge(b, t))
    ensures PartOfAnalysis(shards, now, [Merge(a, b), Merge(b, t)], shards.Keys - {a, b})
  {
  }

  lemma {:induction false} RivalsCanClash(shards: Shards, now: int, a: uint32, b: uint32)
    returns (ops: seq<RebalanceOperation>)
    requires NoneOverloaded(shards) && Rivals(shards, now, a, b) && b != 0
    ensures IsAnalysis(shards, now, ops) && !NamedOnce(StepsOf(ops))
  {
    RivalChoosesRival(shards, now, a, b);
    var t: uint32 :| Justified(shards, now, Merge(b, t));
    TwoAskedFirst(shards, now, a, b, t);
    ops := AnalysisCompletes(shards, now, [Merge(a, b), Merge(b, t)], shards.Keys - {a, b});
    assert ops[0] == Merge(a, b) && ops[1] == Merge(b, t);
    assert Names(StepsOf(ops)[0], b) && Names(StepsOf(ops)[1], b);
  }

  lemma {:induction false} ClashIsBetweenRivals(shards: Shards, now: int, ops: seq<RebalanceOperation>)
    requires NoneOverloaded(shards) && IsAnalysis(shards, now, ops) && !NamedOnce(StepsOf(ops))
    ensures HasRivals(shards, now)
  {
    var steps := StepsOf(ops);
    var i, j, id :| 0 <= i < j < |steps| && Names(steps[i], id) && Names(steps[j], id);
    var x, y := ops[i], ops[j];
    assert Justified(shards, now, x) && Justified(shards, now, y);
    assert x == Merge(x.id, x.target) && y == Merge(y.id, y.target);
    assert Rivals(shards, now, x.id, y.id);
  }

  /**
   * With no shard overloaded, every analysis names each shard at most once if and only if no two siblings may both be asked
   * to merge.
   */
  lemma {:induction false} AnalysisIsConsistent(shards: Shards, now: int)
    requires NoneOverloaded(shards)
    ensures (forall ops | IsAnalysis(shards, now, ops) :: NamedOnce(StepsOf(ops))) <==> !HasRivals(shards, now)
  {
    if HasRivals(shards, now) {
      var a, b :| Rivals(shards, now, a, b);
      if b != 0 {
        var ops := RivalsCanClash(shards, now, a, b);
      } else {
        assert Rivals(shards, now, b, a);
        var ops := RivalsCanClash(shards, now, b, a);
      }
    }
    if ops :| IsAnalysis(shards, now, ops) && !NamedOnce(StepsOf(ops)) {
      ClashIsBetweenRivals(shards, now, ops);
    }
  }

  /** Such shards: two light siblings that are due and have no other sibling. Then every analysis names one twice. */
  lemma {:induction false} LightPairAlwaysClashes(shards: Shards, now: int, a: uint32, b: uint32, ops: seq<RebalanceOperation>)
    requires a != b && a != 0 && b != 0 && a in shards && b in shards && shards[a].parentShard == shards[b].parentShard
    requires forall id | id in shards && shards[id].parentShard == shards[a].parentShard :: id == a || id == b
    requires shards[a].loadFactor < MERGE_THRESHOLD && now - shards[a].lastRebalanced >= REBALANCE_INTERVAL
    requires shards[b].loadFactor < MERGE_THRESHOLD && now - shards[b].lastRebalanced >= REBALANCE_INTERVAL
    requires IsAnalysis(shards, now, ops)
    ensures !NamedOnce(StepsOf(ops))
  {
    assert MergeCandidate(shards, a, b) && MergeCandidate(shards, b, a);
    assert MustMerge(shards, now, a) && MustMerge(shards, now, b);
    var s :| Merge(a, s) in ops;
    var t :| Merge(b, t) in ops;
    assert Justified(shards, now, Merge(a, s)) && Justified(shards, now, Merge(b, t));
    var i :| 0 <= i < |ops| && ops[i] == Merge(a, b);
    var j :| 0 <= j < |ops| && ops[j] == Merge(b, a);
    assert Names(StepsOf(ops)[i], a) && Names(StepsOf(ops)[j], a);
  }

  // ---- moving leaves between trees -----------------------------------------------------------

  /** Add the leaves one by one. */
  method AddAll(tree: MerkleTree, leaves: seq<Hash>)
    requires tree.Valid()
    modifies tree, tree.Owned
    ensures tree.Valid() && old(tree.Owned) <= tree.Owned && fresh(tree.Owned - old(tree.Owned))
    ensures tree.leaves == old(tree.leaves) + leaves
    ensures tree.root == if leaves == [] then old(tree.root) else TreeRoot(tree.H, tree.leaves)
  {
    hide TreeRoot, Tower, InLevels, HashesOf;
    for i := 0 to |leaves|
      invariant tree.Valid() && old(tree.Owned) <= tree.Owned && fresh(tree.Owned - old(tree.Owned))
      invariant tree.leaves == old(tree.leaves) + leaves[..i]
      invariant tree.root == if i == 0 then old(tree.root) else TreeRoot(tree.H, tree.leaves)
    {
      assert leaves[..i + 1] == leaves[..i] + [leaves[i]];
      tree.AddLeaf(leaves[i]);
    }
    assert leaves[..|leaves|] == leaves;
  }

  /** The first half of the parent's leaves goes left, the rest goes right; the parent keeps all of them. */
  method splitStateTree(parent: MerkleTree, left: MerkleTree, right: MerkleTree)
    requires parent.Valid() && left.Valid() && right.Valid()
    requires parent != left && parent != right && left != right
    modifies left, right, left.Owned, right.Owned
    ensures left.Valid() && right.Valid()
    ensures fresh(left.Owned - old(left.Owned)) && fresh(right.Owned - old(right.Owned))
    ensures left.leaves == old(left.leaves) + LowerHalf(parent.leaves)
    ensures right.leaves == old(right.leaves) + UpperHalf(parent.leaves)
  {
    var leaves := parent.leaves;
    AddAll(left, LowerHalf(leaves));
    AddAll(right, UpperHalf(leaves));
  }

  /** All leaves of the two trees are added to the third, in order. */
  method mergeStateTrees(tree1: MerkleTree, tree2: MerkleTree, merged: MerkleTree)
    requires tree1.Valid() && tree2.Valid() && merged.Valid() && merged != tree1 && merged != tree2
    modifies merged, merged.Owned
    ensures merged.Valid() && fresh(merged.Owned - old(merged.Owned))
    ensures merged.leaves == old(merged.leaves) + tree1.leaves + tree2.leaves
    ensures merged.root == if tree1.leaves + tree2.leaves == [] then old(merged.root) else TreeRoot(merged.H, merged.leaves)
  {
    hide TreeRoot, Tower, InLevels, HashesOf;
    var leaves1 := tree1.leaves;
    var leaves2 := tree2.leaves;
    AddAll(merged, leaves1);
    AddAll(merged, leaves2);
  }

  /** The two new trees of a split. */
  method SplitTree(parent: MerkleTree, ghost leftID: int, ghost rightID: int) returns (left: MerkleTree, right: MerkleTree)
    requires parent.Valid()
    ensures fresh(left) && fresh(right) && left != right && left.H == parent.H && right.H == parent.H
    ensures left.shard == leftID && right.shard == rightID
    ensures left.Valid() && right.Valid() && fresh(left.Owned) && fresh(right.Owned)
    ensures left.leaves == LowerHalf(parent.leaves) && right.leaves == UpperHalf(parent.leaves)
  {
    hide TreeRoot, Tower, InLevels, HashesOf;
    left := new MerkleTree(parent.H, leftID);
    right := new MerkleTree(parent.H, rightID);
    splitStateTree(parent, left, right);
    assert [] + LowerHalf(parent.leaves) == LowerHalf(parent.leaves);
    assert [] + UpperHalf(parent.leaves) == UpperHalf(parent.leaves);
  }

  /** The new tree of a merge. */
  method MergeTrees(tree1: MerkleTree, tree2: MerkleTree, ghost id: int) returns (merged: MerkleTree)
    requires tree1.Valid() && tree2.Valid()
    ensures fresh(merged) && merged.H == tree1.H && merged.shard == id && merged.Valid() && fresh(merged.Owned)
    ensures merged.leaves == tree1.leaves + tree2.leaves
    ensures merged.leaves != [] ==> merged.root == TreeRoot(merged.H, merged.leaves)
  {
    hide TreeRoot, Tower, InLevels, HashesOf;
    merged := new MerkleTree(tree1.H, id);
    mergeStateTrees(tree1, tree2, merged);
  }

  /** Splitting a tree into two new ones and merging these into a third gives back its leaves in order, and its root. */
  method SplitThenMerge(parent: MerkleTree) returns (again: MerkleTree)
    requires parent.Valid() && parent.leaves != []
    ensures again.H == parent.H && again.State() == parent.State()
  {
    assert parent.root == TreeRoot(parent.H, parent.leaves);
    HalvesMakeWhole(parent.leaves);
    var left, right := SplitTree(parent, 1, 2);
    again := MergeTrees(left, right, 3);
  }

  // ---- the forest ----------------------------------------------------------------------------

  datatype Outcome = Done | ShardNotFound | Crashed

  ghost function TreesOf(shards: Shards): set<MerkleTree> {
    set id | id in shards :: shards[id].stateTree
  }

  /** The shard is filed under its ID, and its tree is sound and made of the given nodes. */
  ghost predicate ShardValid(H: HashFn, shards: Shards, all: set<MerkleNode>, id: uint32)
    requires id in shards
    reads shards[id].stateTree, all
  {
    var tree := shards[id].stateTree;
    shards[id].id == id && tree.shard == id && tree.H == H && tree.Owned <= all && tree.Valid()
  }

  /** All shards are valid; each has a tree of its own. */
  ghost predicate ShardsValid(H: HashFn, shards: Shards, all: set<MerkleNode>)
    reads TreesOf(shards), all
  {
    forall id {:trigger ShardValid(H, shards, all, id)} | id in shards :: ShardValid(H, shards, all, id)
  }

  /** The leaves held by each shard. */
  ghost function Held(shards: Shards): Holdings
    reads TreesOf(shards)`leaves
  {
    map id | id in shards :: shards[id].stateTree.leaves
  }

  /** A shard on a tree of its own can be filed among valid shards, and any shard can be removed. */
  lemma {:induction false} StillValidWith(H: HashFn, shards: Shards, all: set<MerkleNode>, newID: uint32, shard: MerkleShard,
                                          gone: set<uint32>)
    requires ShardsValid(H, shards, all)
    requires shard.id == newID == shard.stateTree.shard && shard.stateTree.H == H && shard.stateTree.Valid()
    ensures ShardsValid(H, shards[newID := shard] - gone, all + shard.stateTree.Owned)
  {
    var shards' := shards[newID := shard] - gone;
    forall id | id in shards' ensures ShardValid(H, shards', all + shard.stateTree.Owned, id) {
      assert id != newID ==> ShardValid(H, shards, all, id);
    }
  }

  lemma {:induction false} HeldWith(shards: Shards, newID: uint32, shard: MerkleShard, gone: set<uint32>)
    ensures Held(shards[newID := shard] - gone) == Held(shards)[newID := shard.stateTree.leaves] - gone
    ensures Held(shards).Keys == shards.Keys
  {
  }

  /** A step that names a shard that is not there leaves the holdings as they are. */
  lemma {:induction false} MissingShard(shards: Shards, step: Step)
    requires match step
             case SplitStep(id) => id !in shards
             case MergeStep(id1, id2) => id1 !in shards || id2 !in shards
    ensures After(Held(shards), step) == Held(shards)
  {
  }

  /** The two shards of a split, on new trees. */
  method MakeChildren(parent: MerkleShard, parentID: uint32, leftID: uint32, rightID: uint32, now: int)
    returns (left: MerkleShard, right: MerkleShard)
    requires parent.stateTree.Valid()
    ensures fresh(left) && fresh(right) && left.id == leftID && right.id == rightID
    ensures right.parentShard == parentID && right.loadFactor == parent.loadFactor / 2.0 && right.lastRebalanced == now
    ensures fresh(right.stateTree) && right.stateTree.H == parent.stateTree.H && right.stateTree.shard == rightID
    ensures right.stateTree.Valid() && fresh(right.stateTree.Owned)
    ensures right.stateTree.leaves == UpperHalf(parent.stateTree.leaves)
  {
    var leftTree, rightTree := SplitTree(parent.stateTree, leftID, rightID);
    left := new MerkleShard(leftID, leftTree, parent.loadFactor / 2.0, parentID, now);
    right := new MerkleShard(rightID, rightTree, parent.loadFactor / 2.0, parentID, now);
  }

  lemma {:induction false} NextOfRun(held: Holdings, steps: seq<Step>, i: nat)
    requires i < |steps|
    ensures Run(held, steps[..i + 1]) == After(Run(held, steps[..i]), steps[i])
    ensures EnabledAt(held, steps, i) <==> Enabled(Run(held, steps[..i]), steps[i])
    ensures EnabledAt(held, steps[..i + 1], i) <==> EnabledAt(held, steps, i)
  {
    assert steps[..i + 1][..i] == steps[..i];
  }

  /** How carrying out merges of two different shards each ends. */
  lemma {:induction false} OutcomeOfMerges(held: Holdings, all: seq<Step>, steps: seq<Step>, outcome: Outcome)
    requires MergesOf(held, all) && steps <= all
    requires outcome == Done ==> steps == all && AllEnabled(held, all)
    requires outcome != Done ==> steps != []
    requires outcome == ShardNotFound ==> !EnabledAt(held, steps, |steps| - 1)
    requires outcome == Crashed ==> var last := steps[|steps| - 1]; last.MergeStep? && last.id1 == last.id2
    ensures outcome != Crashed
    ensures MaxID(held.Keys) + |all| < U32 ==> (outcome == Done <==> NamedOnce(all))
  {
    if outcome != Done {
      var i := |steps| - 1;
      assert steps == all[..i + 1] && steps[i] == all[i];
      NextOfRun(held, all, i);
    }
    if MaxID(held.Keys) + |all| < U32 {
      MergesGoThrough(held, all);
    }
  }

  /** When no shard is overloaded the analysis asks for merges of two different shards only. */
  lemma {:induction false} AsksForMerges(shards: Shards, now: int, ops: seq<RebalanceOperation>)
    requires IsAnalysis(shards, now, ops) && NoneOverloaded(shards)
    ensures MergesOf(Held(shards), StepsOf(ops))
  {
    forall i | 0 <= i < |ops| ensures ops[i].Merge? && ops[i].id != ops[i].target && ops[i].target in shards && ops[i].id in shards {
      assert Justified(shards, now, ops[i]);
    }
  }

  /** The shards and the hierarchy lose and gain the same IDs if the merged node takes the place of both old ones. */
  lemma {:induction false} MergedKeys(keys: set<uint32>, id1: uint32, id2: uint32, newID: uint32, replaced: bool)
    requires id1 in keys && id2 in keys
    ensures keys + {newID} - {id1, id2} == (if replaced then keys - {id1, id2} + {newID} else keys)
            <==> replaced && newID !in {id1, id2}
  {
  }

  class AdaptiveMerkleForest {
    const H: HashFn
    var shards: Shards
    const shardTree: ShardTree

    /** The nodes of all trees made so far. */
    ghost var AllNodes: set<MerkleNode>

    ghost predicate Valid()
      reads this, TreesOf(shards), AllNodes, shardTree, shardTree.Nodes
    {
      ShardsValid(H, shards, AllNodes) && shardTree.Valid() && shardTree.root != null
    }

    /** Both IDs are that of the root of the shard hierarchy, whose parent is nil. */
    ghost predicate CrashesOn(id1: uint32, id2: uint32)
      reads this, shardTree
    {
      id1 == id2 && id1 in shardTree.nodeMap && shardTree.nodeMap[id1] == shardTree.root
    }

    /** Both IDs are in the hierarchy, under one parent. */
    ghost predicate AreSiblings(id1: uint32, id2: uint32)
      reads shardTree
    {
      && id1 in shardTree.nodeMap && id2 in shardTree.nodeMap
      && shardTree.nodeMap[id1].parent == shardTree.nodeMap[id2].parent
    }

    /** A forest with one empty shard, number 0. */
    constructor (H: HashFn, now: int)
      ensures Valid() && this.H == H && Held(shards) == map[0 := []]
      ensures fresh(shardTree) && fresh(shardTree.Nodes)
      ensures shards.Keys == shardTree.nodeMap.Keys == {0} && shardTree.nodeMap[0] == shardTree.root
      ensures shardTree.nodeMap[0].parent == null
      ensures shards[0].loadFactor == 0.0 && shards[0].parentShard == 0 && shards[0].lastRebalanced == now
    {
      this.H := H;
      var tree := new MerkleTree(H, 0);
      var rootShard := new MerkleShard(0, tree, 0.0, 0, now);
      shards, AllNodes := map[0 := rootShard], {};
      shardTree := new ShardTree();
      new;
      shardTree.AddRootNode(0);
      assert ShardValid(H, shards, AllNodes, 0);
    }

    /** One more than the largest ID in use, in 32 bits. */
    method generateShardID() returns (id: uint32)
      requires Valid()
      ensures id == NextID(Held(shards).Keys)
      ensures Valid() && Held(shards) == old(Held(shards))
    {
      var maxID: uint32 := 0;
      var todo := shards.Keys;
      while todo != {}
        invariant todo <= shards.Keys && IsMaxID(shards.Keys - todo, maxID)
        decreases todo
      {
        var next :| next in todo;
        assert shards.Keys - (todo - {next}) == shards.Keys - todo + {next};
        todo := todo - {next};
        if next > maxID {
          maxID := next;
        }
      }
      assert shards.Keys - {} == shards.Keys;
      MaxIDIsUnique(shards.Keys, maxID);
      assert Held(shards).Keys == shards.Keys;
      id := (maxID + 1) % U32;
    }

    /** File the two children of a split under their IDs. */
    method FileChildren(shardID: uint32, leftChild: MerkleShard, rightChild: MerkleShard)
      requires ShardsValid(H, shards, AllNodes) && shardID in shards && leftChild.id == rightChild.id
      requires rightChild.stateTree.H == H && rightChild.stateTree.shard == rightChild.id && rightChild.stateTree.Valid()
      modifies `shards, `AllNodes
      ensures ShardsValid(H, shards, AllNodes) && shards == old(shards)[rightChild.id := rightChild]
      ensures Held(shards) == old(Held(shards))[rightChild.id := rightChild.stateTree.leaves]
    {
      hide Held, TreeRoot, Tower, InLevels, HashesOf;
      StillValidWith(H, shards, AllNodes, rightChild.id, rightChild, {});
      HeldWith(shards, rightChild.id, rightChild, {});
      ghost var after := shards[rightChild.id := rightChild] - {};
      shards := shards[leftChild.id := leftChild];
      shards := shards[rightChild.id := rightChild];
      AllNodes := AllNodes + rightChild.stateTree.Owned;
      assert shards == after;
    }

    /** The part of a split that concerns the shards themselves. */
    method DivideShard(shardID: uint32, leftID: uint32, rightID: uint32, now: int)
      requires ShardsValid(H, shards, AllNodes) && shardID in shards
      requires leftID == rightID == NextID(shards.Keys)
      modifies `shards, `AllNodes
      ensures rightID in shards && fresh(shards[rightID])
      ensures shards == old(shards)[rightID := shards[rightID]] && ShardsValid(H, shards, AllNodes)
      ensures shards[rightID].parentShard == shardID && shards[rightID].lastRebalanced == now
      ensures shards[rightID].loadFactor == old(shards[shardID].loadFactor) / 2.0
      ensures Held(shards) == old(Held(shards))[rightID := UpperHalf(old(Held(shards))[shardID])]
    {
      var parentShard := shards[shardID];
      assert ShardValid(H, shards, AllNodes, shardID);
      var leftChild, rightChild := MakeChildren(parentShard, shardID, leftID, rightID, now);
      FileChildren(shardID, leftChild, rightChild);
    }

    /** Enter a split in the shard hierarchy. */
    method HangChildren(parentID: uint32, leftID: uint32, rightID: uint32)
      requires Valid()
      modifies shardTree, shardTree.Nodes`children
      ensures Valid() && Held(shards) == old(Held(shards)) && fresh(shardTree.Nodes - old(shardTree.Nodes))
      ensures shardTree.root == old(shardTree.root)
      ensures parentID !in old(shardTree.nodeMap) ==> shardTree.nodeMap == old(shardTree.nodeMap)
      ensures parentID in old(shardTree.nodeMap) ==>
                var nodes, parent := shardTree.nodeMap, old(shardTree.nodeMap)[parentID];
                && leftID in nodes && rightID in nodes
                && nodes == old(shardTree.nodeMap)[leftID := nodes[leftID]][rightID := nodes[rightID]]
                && nodes[rightID].parent == parent && nodes[rightID].depth == parent.depth + 1
                && |parent.children| == 2 && parent.children[0].shardID == leftID && parent.children[1] == nodes[rightID]
    {
      shardTree.AddChildNodes(parentID, leftID, rightID);
    }

    /** Enter a merge in the shard hierarchy. */
    method HangMerged(id1: uint32, id2: uint32, mergedID: uint32) returns (crashed: bool)
      requires Valid()
      modifies shardTree, shardTree.Nodes`children
      ensures Valid() && Held(shards) == old(Held(shards)) && (crashed <==> old(CrashesOn(id1, id2)))
      ensures fresh(shardTree.Nodes - old(shardTree.Nodes)) && shardTree.root == old(shardTree.root)
      ensures if old(AreSiblings(id1, id2)) && !crashed then
                var nodes, before := shardTree.nodeMap, old(shardTree.nodeMap);
                && mergedID in nodes && nodes == (before - {id1, id2})[mergedID := nodes[mergedID]]
                && nodes[mergedID].parent == before[id1].parent && nodes[mergedID].depth == before[id1].depth
              else shardTree.nodeMap == old(shardTree.nodeMap)
    {
      crashed := shardTree.ReplaceNodes(id1, id2, mergedID);
    }

    /** A split, once the IDs are chosen. */
    method SplitInto(shardID: uint32, leftID: uint32, rightID: uint32, now: int)
      requires Valid() && shardID in shards && leftID == rightID == NextID(Held(shards).Keys)
      modifies `shards, `AllNodes, shardTree, shardTree.Nodes`children
      ensures Valid() && Held(shards) == After(old(Held(shards)), SplitStep(shardID))
      ensures rightID in shards && shards == old(shards)[rightID := shards[rightID]]
      ensures shards[rightID].parentShard == shardID && shards[rightID].lastRebalanced == now
      ensures shards[rightID].loadFactor == old(shards[shardID].loadFactor) / 2.0
      ensures fresh(shardTree.Nodes - old(shardTree.Nodes))
      ensures shardID !in old(shardTree.nodeMap) ==> shardTree.nodeMap == old(shardTree.nodeMap)
      ensures shardID in old(shardTree.nodeMap) ==>
                var nodes, parent := shardTree.nodeMap, old(shardTree.nodeMap)[shardID];
                && rightID in nodes && nodes == old(shardTree.nodeMap)[rightID := nodes[rightID]]
                && nodes[rightID].parent == parent && nodes[rightID].depth == parent.depth + 1
                && |parent.children| == 2 && parent.children[0].shardID == rightID && parent.children[1] == nodes[rightID]
    {
      assert Held(shards).Keys == shards.Keys;
      hide Held, NextID, MaxID, Tower, InLevels, HashesOf, TreeRoot;
      DivideShard(shardID, leftID, rightID, now);
      HangChildren(shardID, leftID, rightID);
    }

    /**
     * Split a shard in two. Both IDs are chosen before either child is filed, so they are equal: only the right child
     * stays in the map, and the parent keeps its leaves.
     */
    method splitShard(shardID: uint32, now: int) returns (outcome: Outcome)
      requires Valid()
      modifies `shards, `AllNodes, shardTree, shardTree.Nodes`children
      ensures Valid() && Held(shards) == After(old(Held(shards)), SplitStep(shardID))
      ensures outcome == if shardID in old(shards) then Done else ShardNotFound
      ensures outcome != Done ==> shards == old(shards)
      ensures outcome == Done ==>
                var newID := NextID(old(Held(shards)).Keys);
                && newID in shards && shards == old(shards)[newID := shards[newID]]
                && shards[newID].parentShard == shardID && shards[newID].lastRebalanced == now
                && shards[newID].loadFactor == old(shards[shardID].loadFactor) / 2.0
      ensures fresh(shardTree.Nodes - old(shardTree.Nodes))
      ensures !(outcome == Done && shardID in old(shardTree.nodeMap)) ==> shardTree.nodeMap == old(shardTree.nodeMap)
      ensures outcome == Done && shardID in old(shardTree.nodeMap) ==>
                var newID := NextID(old(Held(shards)).Keys);
                var nodes, parent := shardTree.nodeMap, old(shardTree.nodeMap)[shardID];
                && newID in nodes && nodes == old(shardTree.nodeMap)[newID := nodes[newID]]
                && nodes[newID].parent == parent && nodes[newID].depth == parent.depth + 1
                && |parent.children| == 2 && parent.children[0].shardID == newID && parent.children[1] == nodes[newID]
      ensures old(shards.Keys == shardTree.nodeMap.Keys) ==> shards.Keys == shardTree.nodeMap.Keys
    {
      if shardID !in shards {
        return ShardNotFound;
      }
      var leftID := generateShardID();
      var rightID := generateShardID();
      SplitInto(shardID, leftID, rightID, now);
      outcome := Done;
    }

    /** The shard that holds the leaves of both. */
    method MakeMerged(shard1: MerkleShard, shard2: MerkleShard, id: uint32, now: int) returns (merged: MerkleShard)
      requires shard1.stateTree.Valid() && shard2.stateTree.Valid()
      ensures fresh(merged) && merged.id == id && merged.loadFactor == shard1.loadFactor + shard2.loadFactor
      ensures merged.parentShard == 0 && merged.lastRebalanced == now
      ensures fresh(merged.stateTree) && merged.stateTree.H == shard1.stateTree.H && merged.stateTree.shard == id
      ensures merged.stateTree.Valid() && fresh(merged.stateTree.Owned)
      ensures merged.stateTree.leaves == shard1.stateTree.leaves + shard2.stateTree.leaves
    {
      var tree := MergeTrees(shard1.stateTree, shard2.stateTree, id);
      merged := new MerkleShard(id, tree, shard1.loadFactor + shard2.loadFactor, 0, now);
    }

    /** The part of a merge that concerns the shards themselves. */
    method FuseShards(shardID1: uint32, shardID2: uint32, newID: uint32, now: int)
      requires ShardsValid(H, shards, AllNodes) && shardID1 in shards && shardID2 in shards
      modifies `shards, `AllNodes
      ensures ShardsValid(H, shards, AllNodes)
      ensures shards.Keys == old(shards).Keys + {newID} - {shardID1, shardID2}
      ensures newID in shards ==> fresh(shards[newID])
      ensures newID in shards ==>
                && shards[newID].loadFactor == old(shards[shardID1].loadFactor + shards[shardID2].loadFactor)
                && shards[newID].parentShard == 0 && shards[newID].lastRebalanced == now
      ensures forall id | id in shards && id != newID :: shards[id] == old(shards)[id]
      ensures var held := old(Held(shards));
              Held(shards) == held[newID := held[shardID1] + held[shardID2]] - {shardID1, shardID2}
    {
      hide TreeRoot, Tower, InLevels, HashesOf;
      assert ShardValid(H, shards, AllNodes, shardID1) && ShardValid(H, shards, AllNodes, shardID2);
      var mergedShard := MakeMerged(shards[shardID1], shards[shardID2], newID, now);
      FileMerged(shardID1, shardID2, mergedShard);
    }

    method FileMerged(shardID1: uint32, shardID2: uint32, mergedShard: MerkleShard)
      requires ShardsValid(H, shards, AllNodes) && shardID1 in shards && shardID2 in shards
      requires mergedShard.stateTree.H == H && mergedShard.stateTree.shard == mergedShard.id && mergedShard.stateTree.Valid()
      modifies `shards, `AllNodes
      ensures ShardsValid(H, shards, AllNodes) && shards == old(shards)[mergedShard.id := mergedShard] - {shardID1, shardID2}
      ensures Held(shards) == old(Held(shards))[mergedShard.id := mergedShard.stateTree.leaves] - {shardID1, shardID2}
    {
      hide Held, TreeRoot, Tower, InLevels, HashesOf;
      StillValidWith(H, shards, AllNodes, mergedShard.id, mergedShard, {shardID1, shardID2});
      HeldWith(shards, mergedShard.id, mergedShard, {shardID1, shardID2});
      ghost var after := shards[mergedShard.id := mergedShard] - {shardID1, shardID2};
      shards := shards[mergedShard.id := mergedShard];
      shards := shards - {shardID1};
      shards := shards - {shardID2};
      AllNodes := AllNodes + mergedShard.stateTree.Owned;
      assert shards == after;
    }

    /** A merge, once the ID is chosen. */
    method MergeInto(shardID1: uint32, shardID2: uint32, newID: uint32, now: int) returns (crashed: bool)
      requires Valid() && shardID1 in shards && shardID2 in shards && newID == NextID(Held(shards).Keys)
      modifies `shards, `AllNodes, shardTree, shardTree.Nodes`children
      ensures Valid() && (crashed <==> old(CrashesOn(shardID1, shardID2)))
      ensures Held(shards) == After(old(Held(shards)), MergeStep(shardID1, shardID2))
      ensures shards.Keys == old(shards).Keys + {newID} - {shardID1, shardID2}
      ensures forall id | id in shards && id != newID :: shards[id] == old(shards)[id]
      ensures newID in shards ==>
                && shards[newID].loadFactor == old(shards[shardID1].loadFactor + shards[shardID2].loadFactor)
                && shards[newID].parentShard == 0 && shards[newID].lastRebalanced == now
      ensures fresh(shardTree.Nodes - old(shardTree.Nodes))
      ensures if old(AreSiblings(shardID1, shardID2)) && !crashed then
                var nodes, before := shardTree.nodeMap, old(shardTree.nodeMap);
                && newID in nodes && nodes == (before - {shardID1, shardID2})[newID := nodes[newID]]
                && nodes[newID].parent == before[shardID1].parent && nodes[newID].depth == before[shardID1].depth
              else shardTree.nodeMap == old(shardTree.nodeMap)
    {
      hide TreeRoot, Tower, InLevels, HashesOf;
      FuseShards(shardID1, shardID2, newID, now);
      crashed := HangMerged(shardID1, shardID2, newID);
    }

    /** Merge two shards into one. Merging the root with itself would dereference a nil parent. */
    method mergeShards(shardID1: uint32, shardID2: uint32, now: int) returns (outcome: Outcome)
      requires Valid()
      modifies `shards, `AllNodes, shardTree, shardTree.Nodes`children
      ensures Valid() && Held(shards) == After(old(Held(shards)), MergeStep(shardID1, shardID2))
      ensures outcome == ShardNotFound <==> !(shardID1 in old(shards) && shardID2 in old(shards))
      ensures outcome == ShardNotFound ==> shards == old(shards)
      ensures outcome == Crashed <==> shardID1 in old(shards) && shardID2 in old(shards) && old(CrashesOn(shardID1, shardID2))
      ensures outcome != ShardNotFound ==>
                var newID := NextID(old(Held(shards)).Keys);
                && shards.Keys == old(shards).Keys + {newID} - {shardID1, shardID2}
                && (forall id | id in shards && id != newID :: shards[id] == old(shards)[id])
                && (newID in shards ==>
                      && shards[newID].loadFactor == old(shards[shardID1].loadFactor + shards[shardID2].loadFactor)
                      && shards[newID].parentShard == 0 && shards[newID].lastRebalanced == now)
      ensures fresh(shardTree.Nodes - old(shardTree.Nodes))
      ensures if old(AreSiblings(shardID1, shardID2)) && outcome == Done then
                var nodes, before := shardTree.nodeMap, old(shardTree.nodeMap);
                var newID := NextID(old(Held(shards)).Keys);
                && newID in nodes && nodes == (before - {shardID1, shardID2})[newID := nodes[newID]]
                && nodes[newID].parent == before[shardID1].parent && nodes[newID].depth == before[shardID1].depth
              else shardTree.nodeMap == old(shardTree.nodeMap)
      ensures old(shards.Keys == shardTree.nodeMap.Keys) && outcome != ShardNotFound ==>
                (shards.Keys == shardTree.nodeMap.Keys
                 <==> outcome == Done && old(AreSiblings(shardID1, shardID2))
                      && NextID(old(Held(shards)).Keys) !in {shardID1, shardID2})
    {
      hide Valid, Held, After, NextID, MaxID, TreeRoot, Tower, InLevels, HashesOf;
      if shardID1 !in shards || shardID2 !in shards {
        MissingShard(shards, MergeStep(shardID1, shardID2));
        return ShardNotFound;
      }
      var newID := generateShardID();
      MergedKeys(shards.Keys, shardID1, shardID2, newID, AreSiblings(shardID1, shardID2) && !CrashesOn(shardID1, shardID2));
      var crashed := MergeInto(shardID1, shardID2, newID, now);
      outcome := if crashed then Crashed else Done;
    }

    /** Some shard above the split threshold, if there is one. */
    method FindOverloaded() returns (found: Option<uint32>)
      requires Valid()
      ensures Valid() && Held(shards) == old(Held(shards))
      ensures found.Some? ==> found.value in shards && shards[found.value].loadFactor > SPLIT_THRESHOLD
      ensures found == None ==> NoneOverloaded(shards)
    {
      var todo := shards.Keys;
      while todo != {}
        invariant todo <= shards.Keys
        invariant forall id | id in shards && id !in todo :: shards[id].loadFactor <= SPLIT_THRESHOLD
        decreases todo
      {
        var shardID :| shardID in todo;
        todo := todo - {shardID};
        if shards[shardID].loadFactor > SPLIT_THRESHOLD {
          return Some(shardID);
        }
      }
      found := None;
    }

    /**
     * Carry out the operations in turn. This ends with an error at the first one that does not find its shards, and
     * crashes only on merging a shard with itself.
     */
    method RunOperations(ops: seq<RebalanceOperation>, now: int) returns (outcome: Outcome, ghost steps: seq<Step>)
      requires Valid()
      modifies `shards, `AllNodes, shardTree, shardTree.Nodes`children
      ensures Valid() && steps <= StepsOf(ops) && Held(shards) == Run(old(Held(shards)), steps)
      ensures outcome == Done ==> steps == StepsOf(ops) && AllEnabled(old(Held(shards)), steps)
      ensures outcome != Done ==> steps != []
      ensures outcome == ShardNotFound ==> !EnabledAt(old(Held(shards)), steps, |steps| - 1)
      ensures outcome == Crashed ==>
                var last := steps[|steps| - 1]; last.MergeStep? && last.id1 == last.id2
    {
      hide After, Enabled;
      ghost var held, all := Held(shards), StepsOf(ops);
      steps := [];
      assert all[..0] == [];
      for i := 0 to |ops|
        invariant Valid() && steps == all[..i] && Held(shards) == Run(held, steps)
        invariant forall j {:trigger EnabledAt(held, all, j)} | 0 <= j < i :: EnabledAt(held, all, j)
        invariant fresh(shardTree.Nodes - old(shardTree.Nodes))
      {
        NextOfRun(held, all, i);
        steps := all[..i + 1];
        outcome := RunOperation(ops[i], now);
        if outcome != Done {
          return;
        }
      }
      assert all[..|ops|] == all;
      outcome := Done;
    }

    method RunOperation(op: RebalanceOperation, now: int) returns (outcome: Outcome)
      requires Valid()
      modifies `shards, `AllNodes, shardTree, shardTree.Nodes`children
      ensures Valid() && Held(shards) == After(old(Held(shards)), StepOf(op))
      ensures match op
              case Split(id) => Held(shards) == After(old(Held(shards)), SplitStep(id))
              case Merge(id, target) => Held(shards) == After(old(Held(shards)), MergeStep(id, target))
      ensures outcome == ShardNotFound <==> !Enabled(old(Held(shards)), StepOf(op))
      ensures outcome == Crashed ==> op.Merge? && op.id == op.target
      ensures fresh(shardTree.Nodes - old(shardTree.Nodes))
    {
      match op {
        case Split(id) =>
          outcome := splitShard(id, now);
        case Merge(id, target) =>
          outcome := mergeShards(id, target, now);
      }
    }

    /**
     * Split the first overloaded shard that the iteration meets, or else carry out the merges the analysis asks for.
     * The analysis never asks for a split here: its threshold is the one already checked. Below the ID limit the merges
     * all go through exactly if the analysis names no shard twice, which is certain if there are no rivals.
     */
    method DynamicShardRebalancing(now: int) returns (outcome: Outcome, ghost steps: seq<Step>, ghost ops: seq<RebalanceOperation>)
      requires Valid()
      modifies `shards, `AllNodes, shardTree, shardTree.Nodes`children
      ensures Valid() && outcome != Crashed
      ensures Held(shards) == Run(old(Held(shards)), steps) && |steps| <= |old(shards)|
      ensures (exists id :: id in old(shards) && old(shards[id].loadFactor) > SPLIT_THRESHOLD) ==>
                outcome == Done && |steps| == 1 && steps[0].SplitStep? && steps[0].id in old(shards)
                && old(shards[steps[0].id].loadFactor) > SPLIT_THRESHOLD
                && (old(shards.Keys == shardTree.nodeMap.Keys) ==> shards.Keys == shardTree.nodeMap.Keys)
      ensures old(NoneOverloaded(shards)) && !old(HasRivals(shards, now)) && MaxID(old(shards).Keys) + |old(shards)| < U32 ==>
                outcome == Done
      ensures old(NoneOverloaded(shards)) ==>
                && old(IsAnalysis(shards, now, ops)) && steps <= StepsOf(ops) && MergesOf(old(Held(shards)), StepsOf(ops))
                && (MaxID(old(shards).Keys) + |ops| < U32 ==> (outcome == Done <==> NamedOnce(StepsOf(ops))))
    {
      var overloaded := FindOverloaded();
      if overloaded.Some? {
        steps, ops := [SplitStep(overloaded.value)], [];
        assert steps[..0] == [];
        outcome := splitShard(overloaded.value, now);
        return;
      }
      outcome, steps, ops := Rebalance(now);
    }

    /** The merges the analysis asks for when no shard is overloaded. */
    method Rebalance(now: int) returns (outcome: Outcome, ghost steps: seq<Step>, ghost asked: seq<RebalanceOperation>)
      requires Valid() && NoneOverloaded(shards)
      modifies `shards, `AllNodes, shardTree, shardTree.Nodes`children
      ensures Valid() && outcome != Crashed && steps <= StepsOf(asked) && |asked| <= |old(shards)|
      ensures Held(shards) == Run(old(Held(shards)), steps) && MergesOf(old(Held(shards)), StepsOf(asked))
      ensures old(IsAnalysis(shards, now, asked))
      ensures MaxID(old(shards).Keys) + |asked| < U32 ==> (outcome == Done <==> NamedOnce(StepsOf(asked)))
      ensures !old(HasRivals(shards, now)) ==> NamedOnce(StepsOf(asked))
    {
      hide IsAnalysis, MergesOf, NamedOnce, AllEnabled, EnabledAt, NoneOverloaded, HasRivals;
      ghost var held := Held(shards);
      AnalysisIsConsistent(shards, now);
      var ops := Analyze(now);
      asked := ops;
      outcome, steps := RunOperations(ops, now);
      OutcomeOfMerges(held, StepsOf(ops), steps, outcome);
    }

    method Analyze(now: int) returns (ops: seq<RebalanceOperation>)
      requires Valid() && NoneOverloaded(shards)
      ensures Valid() && Held(shards) == old(Held(shards)) && Held(shards).Keys == shards.Keys
      ensures IsAnalysis(shards, now, ops) && |ops| <= |shards| && MergesOf(Held(shards), StepsOf(ops))
    {
      ops := AnalyzeShardLoads(shards, now);
      AsksForMerges(shards, now, ops);
    }

    /** One operation on the tree of one shard; all other shards are as before. */
    method ApplyAt(id: uint32, data: seq<byte>, commitment: seq<byte>)
      requires ShardsValid(H, shards, AllNodes) && id in shards
      modifies shards[id].stateTree, shards[id].stateTree.Owned, `AllNodes
      ensures ShardsValid(H, shards, AllNodes) && fresh(AllNodes - old(AllNodes)) && old(AllNodes) <= AllNodes
      ensures shards[id].stateTree.leaves == old(shards[id].stateTree.leaves) + [H(data + commitment)]
      ensures forall other | other in shards && other != id :: shards[other].stateTree.leaves == old(shards[other].stateTree.leaves)
    {
      hide TreeRoot, Tower, HashesOf, InLevels;
      assert ShardValid(H, shards, AllNodes, id);
      shards[id].stateTree.ApplyOperation(data, commitment);
      AllNodes := AllNodes + shards[id].stateTree.Owned;
      assert shards[id].stateTree.State() == Appended(H, old(shards[id].stateTree.State()), H(data + commitment));
      forall other | other in shards ensures ShardValid(H, shards, AllNodes, other) {
        assert old(ShardValid(H, shards, AllNodes, other));
      }
    }

    /** Each shard holds what it was given and the leaf once for every listing. */
    ghost predicate Gained(given: Holdings, shardIDs: seq<uint32>, leaf: Hash)
      reads this, TreesOf(shards)`leaves
    {
      forall id | id in shards ::
        id in given && shards[id].stateTree.leaves == given[id] + Added(shardIDs, id, leaf)
    }

    lemma {:induction false} NothingGained(data: seq<byte>, commitment: seq<byte>, shardIDs: seq<uint32>)
      ensures Gained(Held(shards), shardIDs[..0], H(data + commitment))
    {
      NoneAdded(H(data + commitment));
    }

    /** The operation on the i-th shard listed, after those before it. */
    method ApplyNext(shardIDs: seq<uint32>, i: nat, data: seq<byte>, commitment: seq<byte>, ghost given: Holdings)
      requires ShardsValid(H, shards, AllNodes) && i < |shardIDs| && shardIDs[i] in shards
      requires Gained(given, shardIDs[..i], H(data + commitment))
      modifies shards[shardIDs[i]].stateTree, shards[shardIDs[i]].stateTree.Owned, `AllNodes
      ensures ShardsValid(H, shards, AllNodes) && fresh(AllNodes - old(AllNodes)) && old(AllNodes) <= AllNodes
      ensures Gained(given, shardIDs[..i + 1], H(data + commitment))
    {
      hide TreeRoot, Tower, HashesOf, InLevels, Added;
      assert ShardValid(H, shards, AllNodes, shardIDs[i]);
      ApplyAt(shardIDs[i], data, commitment);
      forall id | id in shards
        ensures shards[id].stateTree.leaves == given[id] + Added(shardIDs[..i + 1], id, H(data + commitment))
      {
        AddedOneMore(given[id], shardIDs, i, id, H(data + commitment));
      }
    }

    /** The operation on every listed shard in turn. */
    method ApplyToAll(shardIDs: seq<uint32>, data: seq<byte>, commitment: seq<byte>)
      requires ShardsValid(H, shards, AllNodes) && forall id | id in shardIDs :: id in shards
      modifies TreesOf(shards), AllNodes, `AllNodes
      ensures ShardsValid(H, shards, AllNodes)
      ensures Gained(old(Held(shards)), shardIDs, H(data + commitment))
    {
      hide Added, Gained, TreeRoot, Tower, HashesOf, InLevels;
      ghost var given := Held(shards);
      NothingGained(data, commitment, shardIDs);
      for i := 0 to |shardIDs|
        invariant ShardsValid(H, shards, AllNodes) && fresh(AllNodes - old(AllNodes))
        invariant Gained(given, shardIDs[..i], H(data + commitment))
      {
        assert ShardValid(H, shards, AllNodes, shardIDs[i]);
        ApplyNext(shardIDs, i, data, commitment, given);
      }
      assert shardIDs[..|shardIDs|] == shardIDs;
    }

    /** The operation's leaf goes to every listed shard, as often as it is listed, or to none if one is missing. */
    method CrossShardOperation(shardIDs: seq<uint32>, data: seq<byte>, commitment: seq<byte>) returns (outcome: Outcome)
      requires Valid()
      modifies TreesOf(shards), AllNodes, `AllNodes
      ensures Valid()
      ensures outcome == if forall id | id in shardIDs :: id in shards then Done else ShardNotFound
      ensures outcome == Done ==> Gained(old(Held(shards)), shardIDs, H(data + commitment))
      ensures outcome == ShardNotFound ==>
                forall id | id in shards :: shards[id].stateTree.State() == old(shards[id].stateTree.State())
    {
      for i := 0 to |shardIDs|
        invariant forall id | id in shardIDs[..i] :: id in shards
      {
        if shardIDs[i] !in shards {
          return ShardNotFound;
        }
      }
      assert shardIDs[..|shardIDs|] == shardIDs;
      ApplyToAll(shardIDs, data, commitment);
      outcome := Done;
    }
  }

  /** Splitting the first shard: both records then name shard 0 as the parent, but their nodes have different parents. */
  method SplitOnce(H: HashFn, now: int) returns (forest: AdaptiveMerkleForest)
    ensures fresh(forest) && fresh(forest.shardTree) && fresh(forest.shardTree.Nodes) && forest.Valid()
    ensures forest.shards.Keys == forest.shardTree.nodeMap.Keys == {0, 1}
    ensures forest.shards[0].parentShard == forest.shards[1].parentShard == 0
    ensures forest.shardTree.nodeMap[1].parent == forest.shardTree.nodeMap[0]
    ensures forest.shardTree.nodeMap[0].parent == null && NextID(Held(forest.shards).Keys) == 2
  {
    hide AdaptiveMerkleForest.Valid, TreeRoot, Tower, InLevels, HashesOf, After, NextID;
    forest := new AdaptiveMerkleForest(H, now);
    assert Held(forest.shards).Keys == {0};
    IDsOfSplit();
    var _ := forest.splitShard(0, now);
    assert Held(forest.shards).Keys == {0, 1};
  }

  lemma {:induction false} IDsOfSplit()
    ensures NextID({0}) == 1 && NextID({0, 1}) == 2
  {
  }

  /**
   * So the analysis takes the two for siblings, and merging them leaves both in the hierarchy, which never learns of the
   * merged shard.
   */
  method HierarchyGoesStale(H: HashFn, now: int) returns (forest: AdaptiveMerkleForest)
    ensures fresh(forest) && forest.Valid()
    ensures forest.shards.Keys == {2} && forest.shardTree.nodeMap.Keys == {0, 1}
  {
    hide AdaptiveMerkleForest.Valid, Held, TreeRoot, Tower, InLevels, HashesOf, After, NextID;
    forest := SplitOnce(H, now);
    var _ := forest.mergeShards(0, 1, now);
  }
}
