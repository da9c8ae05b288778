/** The Merkle tree as it is built in memory: nodes shared through a hash-keyed map, linked upwards by parent pointers. */
module MerkleHeap {
  import opened Types
  import opened MerkleSpec

  class MerkleNode {
    const hash: Hash
    const left: MerkleNode?
    const right: MerkleNode?
    var parent: MerkleNode?
    const isLeaf: bool
    const data: seq<byte>
    ghost const tree: MerkleTree

    constructor (hash: Hash, left: MerkleNode?, right: MerkleNode?, isLeaf: bool, data: seq<byte>, ghost tree: MerkleTree)
      ensures this.hash == hash && this.left == left && this.right == right && parent == null
      ensures this.isLeaf == isLeaf && this.data == data && this.tree == tree
    {
      this.tree := tree;
      this.hash, this.left, this.right, this.isLeaf, this.data := hash, left, right, isLeaf, data;
      parent := null;
    }
  }

  // ---- levels of nodes -----------------------------------------------------------------------

  ghost function HashesOf(level: seq<MerkleNode>): (hs: seq<Hash>)
    ensures |hs| == |level|
  {
    seq<Hash>(|level|, i requires 0 <= i < |level| => level[i].hash)
  }

  function Combined(left: MerkleNode, right: MerkleNode): seq<byte> {
    var l: seq<byte>, r: seq<byte> := left.hash, right.hash;
    l + r
  }

  /** p is the node above the m-th pair of the level. */
  ghost predicate IsParentOfPair(H: HashFn, lower: seq<MerkleNode>, m: nat, p: MerkleNode)
    requires 2 * m < |lower|
  {
    && p.left == lower[2 * m] && p.right == lower[RightIndex(|lower|, m)]
    && p.hash == H(Combined(lower[2 * m], lower[RightIndex(|lower|, m)]))
  }

  /** x sits at position j of the lower level and points to the node above that position. */
  ghost predicate PointsUpFrom(lower: seq<MerkleNode>, upper: seq<MerkleNode>, x: MerkleNode, j: nat)
    requires |upper| == (|lower| + 1) / 2
    reads x`parent
  {
    j < |lower| && lower[j] == x && x.parent == upper[j / 2]
  }

  /**
   * The first nodes of `upper` are the parents of the first pairs of `lower`, whose nodes point to them: the node at
   * position t, which may be at other positions too, to the parent of position at[t].
   */
  ghost predicate PartlyLinked(H: HashFn, lower: seq<MerkleNode>, upper: seq<MerkleNode>, at: seq<nat>)
    reads (set x | x in lower)`parent
  {
    && |upper| <= (|lower| + 1) / 2 && |at| == (if 2 * |upper| <= |lower| then 2 * |upper| else |lower|)
    && (forall m {:trigger upper[m]} | 0 <= m < |upper| :: IsParentOfPair(H, lower, m, upper[m]))
    && (forall t {:trigger at[t]} | 0 <= t < |at| ::
          at[t] < |at| && lower[at[t]] == lower[t] && lower[t].parent == upper[at[t] / 2])
  }

  ghost predicate PointsUp(lower: seq<MerkleNode>, upper: seq<MerkleNode>, x: MerkleNode)
    requires |upper| == (|lower| + 1) / 2
    reads x`parent
  {
    exists j: nat :: PointsUpFrom(lower, upper, x, j)
  }

  /** `upper` is the level of parents of `lower`, and every node of `lower` points to one of its parents. */
  ghost predicate Linked(H: HashFn, lower: seq<MerkleNode>, upper: seq<MerkleNode>)
    reads (set x | x in lower)`parent
  {
    && |lower| > 1 && |upper| == (|lower| + 1) / 2
    && (forall m {:trigger upper[m]} | 0 <= m < |upper| :: IsParentOfPair(H, lower, m, upper[m]))
    && (forall x {:trigger PointsUp(lower, upper, x)} | x in lower :: PointsUp(lower, upper, x))
  }

  lemma {:induction false} LinkedHashes(H: HashFn, lower: seq<MerkleNode>, upper: seq<MerkleNode>)
    requires Linked(H, lower, upper)
    ensures HashesOf(upper) == NextLevel(H, HashesOf(lower))
  {
    forall m | 0 <= m < |upper| ensures HashesOf(upper)[m] == NextLevel(H, HashesOf(lower))[m] {
      assert IsParentOfPair(H, lower, m, upper[m]);
      assert Combined(lower[2 * m], lower[RightIndex(|lower|, m)]) == PairInput(HashesOf(lower), m);
    }
  }

  ghost predicate LinkedAt(H: HashFn, levels: seq<seq<MerkleNode>>, k: int)
    requires 0 <= k < |levels| - 1
    reads (set x | x in levels[k])`parent
  {
    Linked(H, levels[k], levels[k + 1])
  }

  ghost predicate InLevels(levels: seq<seq<MerkleNode>>, x: MerkleNode) {
    exists k :: 0 <= k < |levels| && x in levels[k]
  }

  ghost function NodesOf(levels: seq<seq<MerkleNode>>): set<MerkleNode> {
    set k, x | 0 <= k < |levels| && x in levels[k] :: x
  }

  /** Levels linked bottom-up; above the leaves every node has one place only, and no level shares nodes with the top. */
  ghost predicate Rising(H: HashFn, levels: seq<seq<MerkleNode>>)
    reads NodesOf(levels)`parent
  {
    && |levels| > 0
    && (forall k {:trigger LinkedAt(H, levels, k)} | 0 <= k < |levels| - 1 :: LinkedAt(H, levels, k))
    && (forall k | 0 < k < |levels| :: Distinct(levels[k]))
    && (forall k, x | 0 <= k < |levels| - 1 && x in levels[k] :: x !in levels[|levels| - 1])
  }

  /** Rising levels that end in a single root without parent. */
  ghost predicate Tower(H: HashFn, levels: seq<seq<MerkleNode>>)
    reads NodesOf(levels)`parent
  {
    assert forall x | |levels| > 0 && x in levels[|levels| - 1] :: x in NodesOf(levels);
    Rising(H, levels) && |levels[|levels| - 1]| == 1 && levels[|levels| - 1][0].parent == null
  }

  class MerkleTree {
    const H: HashFn
    /** The shard the tree belongs to. */
    ghost const shard: int
    var root: Hash
    var leaves: seq<Hash>
    var nodes: map<Hash, MerkleNode>

    /** The leaves the current parent pointers were built for, the node levels of that build, and all nodes made so far. */
    ghost var built: seq<Hash>
    ghost var levels: seq<seq<MerkleNode>>
    ghost var Owned: set<MerkleNode>

    /** The observable state. */
    function State(): TreeState
      reads this
    {
      TreeState(leaves, root)
    }

    ghost predicate NodesFiled()
      reads this
    {
      && (forall h | h in nodes :: nodes[h].hash == h && nodes[h] in Owned)
      && (forall x | x in Owned :: x.tree == this)
    }

    /** The links form a tower over `built`, and every leaf's node is in it. */
    ghost predicate LinksValid()
      reads this, NodesOf(levels)`parent
    {
      && Tower(H, levels) && built != [] && HashesOf(levels[0]) == built
      && (forall x | x in NodesOf(levels) :: x in Owned)
      && (forall h | h in leaves :: h in nodes && InLevels(levels, nodes[h]))
    }

    /** Rolling back to a single leaf keeps the links of the build with two leaves. */
    ghost predicate Stale()
      reads this
    {
      |leaves| == 1 && |built| == 2 && built[0] == leaves[0]
    }

    ghost predicate Valid()
      reads this, Owned
    {
      && NodesFiled()
      && (leaves != [] ==> (forall x | x in NodesOf(levels) :: x in Owned) && LinksValid()
                           && root == TreeRoot(H, leaves) && (built == leaves || Stale()))
    }

    constructor (H: HashFn, ghost shard: int)
      ensures Valid() && this.H == H && this.shard == shard && Owned == {}
      ensures State() == TreeState([], ZERO_HASH)
    {
      this.H, this.shard := H, shard;
      root, leaves, nodes := ZERO_HASH, [], map[];
      built, levels, Owned := [], [], {};
    }

    /** Create the node above the next pair of `current` and make the pair point to it. */
    method LinkPair(current: seq<MerkleNode>, i: nat) returns (parent: MerkleNode)
      requires i < |current| && i % 2 == 0 && NodesFiled()
      modifies `nodes, `Owned, {current[i], current[RightIndex(|current|, i / 2)]}`parent
      ensures fresh(parent) && parent.parent == null && IsParentOfPair(H, current, i / 2, parent)
      ensures current[i].parent == parent && current[RightIndex(|current|, i / 2)].parent == parent
      ensures nodes == old(nodes)[parent.hash := parent] && Owned == old(Owned) + {parent} && NodesFiled()
    {
      var left := current[i];
      var right := if i + 1 < |current| then current[i + 1] else left;
      var parentHash := H(Combined(left, right));
      parent := new MerkleNode(parentHash, left, right, false, [], this);
      left.parent := parent;
      right.parent := parent;
      nodes := nodes[parentHash := parent];
      Owned := Owned + {parent};
    }

    /** One round of a pass: link the first pair of `current` that has no parent in `done`. */
    method LinkNext(current: seq<MerkleNode>, ghost done: seq<MerkleNode>, i: nat, ghost at: seq<nat>)
      returns (parent: MerkleNode, ghost at': seq<nat>)
      requires i == 2 * |done| < |current| && NodesFiled() && PartlyLinked(H, current, done, at)
      modifies `nodes, `Owned, {current[i], current[RightIndex(|current|, i / 2)]}`parent
      ensures fresh(parent) && parent.parent == null && PartlyLinked(H, current, done + [parent], at')
      ensures nodes == old(nodes)[parent.hash := parent] && Owned == old(Owned) + {parent} && NodesFiled()
    {
      parent := LinkPair(current, i);
      ghost var last := RightIndex(|current|, i / 2);
      at' := seq<nat>(last + 1, t requires 0 <= t <= last =>
                        if current[t] == current[i] then i else if current[t] == current[last] then last else at[t]);
    }

    /** One pass of the build: the parents of the nodes of `current`. */
    method BuildLevel(current: seq<MerkleNode>) returns (next: seq<MerkleNode>)
      requires |current| > 1 && NodesFiled()
      modifies `nodes, `Owned, (set x | x in current)`parent
      ensures Linked(H, current, next) && Distinct(next)
      ensures forall x | x in next :: fresh(x) && x.parent == null && x in Owned
      ensures NodesFiled() && nodes.Keys >= old(nodes).Keys
      ensures forall h | h in old(nodes) :: nodes[h] == old(nodes)[h] || nodes[h] in next
      ensures old(Owned) <= Owned && fresh(Owned - old(Owned))
    {
      next := [];
      var i := 0;
      ghost var at: seq<nat> := [];
      while i < |current|
        invariant 0 <= i <= |current| + 1 && i == 2 * |next|
        invariant PartlyLinked(H, current, next, at)
        invariant forall m | 0 <= m < |next| :: fresh(next[m]) && next[m].parent == null && next[m] in Owned
        invariant Distinct(next)
        invariant NodesFiled() && nodes.Keys >= old(nodes).Keys
        invariant forall h | h in old(nodes) :: nodes[h] == old(nodes)[h] || nodes[h] in next
        invariant old(Owned) <= Owned && fresh(Owned - old(Owned))
        decreases |current| - i
      {
        hide PartlyLinked;
        var parent;
        parent, at := LinkNext(current, next, i, at);
        next := next + [parent];
        i := i + 2;
      }
      PartlyLinkedAll(H, current, next, at);
    }

    /** BuildLevel, seen as adding a level on top of those already built. */
    method RaiseLevel(current: seq<MerkleNode>, ghost lv: seq<seq<MerkleNode>>) returns (next: seq<MerkleNode>)
      requires |current| > 1 && NodesFiled()
      requires Rising(H, lv) && lv[|lv| - 1] == current && forall x | x in NodesOf(lv) :: x in Owned
      modifies `nodes, `Owned, (set x | x in current)`parent
      ensures Rising(H, lv + [next]) && HashesOf(next) == NextLevel(H, HashesOf(current))
      ensures forall x | x in next :: fresh(x) && x.parent == null
      ensures NodesFiled() && nodes.Keys >= old(nodes).Keys && forall x | x in NodesOf(lv + [next]) :: x in Owned
      ensures forall h | h in old(nodes) && InLevels(lv, old(nodes)[h]) :: InLevels(lv + [next], nodes[h])
      ensures old(Owned) <= Owned && fresh(Owned - old(Owned))
    {
      label before:
      next := BuildLevel(current);
      LinkedHashes(H, current, next);
      ghost var taller := lv + [next];
      forall k | 0 <= k < |taller| - 1 ensures LinkedAt(H, taller, k) {
        if k < |lv| - 1 {
          assert old@before(LinkedAt(H, lv, k));
          assert lv[k] == taller[k] && lv[k + 1] == taller[k + 1];
        }
      }
      StillInLevels(lv, next);
      assert next == taller[|lv|];
    }

    /** The loop over the levels: raise levels until one node is left. */
    method RaiseAll(bottom: seq<MerkleNode>) returns (top: MerkleNode, ghost lv: seq<seq<MerkleNode>>)
      requires bottom != [] && NodesFiled() && forall x | x in bottom :: x in Owned
      modifies `nodes, `Owned, (set x | x in bottom)`parent
      ensures Rising(H, lv) && lv[0] == bottom && lv[|lv| - 1] == [top] && forall x | x in NodesOf(lv) :: x in Owned
      ensures top.hash == TreeRoot(H, HashesOf(bottom))
      ensures |bottom| > 1 ==> top.parent == null
      ensures |bottom| == 1 ==> nodes == old(nodes) && Owned == old(Owned) && lv == [bottom]
      ensures |bottom| == 1 ==> top.parent == old(top.parent)
      ensures NodesFiled() && nodes.Keys >= old(nodes).Keys
      ensures forall h | h in old(nodes) && old(nodes)[h] in bottom :: InLevels(lv, nodes[h])
      ensures old(Owned) <= Owned && fresh(Owned - old(Owned))
    {
      var current := bottom;
      lv := [bottom];
      StillInLevels([], bottom);
      assert [] + [bottom] == lv;
      assert forall x | x in lv[0] :: InLevels(lv, x);
      while |current| > 1
        invariant |lv| > 0 && lv[0] == bottom && lv[|lv| - 1] == current && current != []
        invariant Rising(H, lv) && forall x | x in NodesOf(lv) :: x in Owned
        invariant TreeRoot(H, HashesOf(current)) == TreeRoot(H, HashesOf(bottom))
        invariant |lv| == 1 ==> nodes == old(nodes) && Owned == old(Owned) && forall x | x in bottom :: x.parent == old(x.parent)
        invariant |lv| > 1 ==> |bottom| > 1 && forall x | x in current :: fresh(x) && x.parent == null
        invariant NodesFiled() && nodes.Keys >= old(nodes).Keys
        invariant forall h | h in old(nodes) && old(nodes)[h] in bottom :: InLevels(lv, nodes[h])
        invariant old(Owned) <= Owned && fresh(Owned - old(Owned))
        decreases |current|
      {
        var next := RaiseLevel(current, lv);
        lv := lv + [next];
        current := next;
      }
      top := current[0];
    }

    /** The nodes filed under the leaves, in leaf order. */
    method LeafNodes() returns (bottom: seq<MerkleNode>)
      requires NodesFiled() && forall h | h in leaves :: h in nodes
      ensures HashesOf(bottom) == leaves && forall h | h in leaves :: nodes[h] in bottom
      ensures forall x | x in bottom :: x in nodes.Values
      ensures leaves != [] ==> bottom[0] == nodes[leaves[0]]
    {
      bottom := [];
      for i := 0 to |leaves|
        invariant |bottom| == i && forall j | 0 <= j < i :: bottom[j] == nodes[leaves[j]]
      {
        bottom := bottom + [nodes[leaves[i]]];
      }
      assert HashesOf(bottom) == leaves;
    }

    /** Rebuild the links and the root bottom-up from the leaf list. */
    method buildTree()
      requires NodesFiled() && forall h | h in leaves :: h in nodes
      modifies `root, `nodes, `built, `levels, `Owned, nodes.Values`parent
      ensures leaves == [] ==>
                root == old(root) && nodes == old(nodes) && built == old(built) && levels == old(levels) && Owned == old(Owned)
      ensures leaves != [] ==> root == TreeRoot(H, leaves) && NodesFiled()
      ensures |leaves| > 1 || (leaves != [] && old(nodes[leaves[0]].parent) == null) ==> built == leaves && LinksValid()
      ensures |leaves| == 1 && old(nodes[leaves[0]].parent) != null ==>
                nodes == old(nodes) && built == old(built) && levels == old(levels) && Owned == old(Owned)
      ensures |leaves| <= 1 ==> forall x: MerkleNode | x in old(nodes).Values :: x.parent == old(x.parent)
      ensures old(Owned) <= Owned && fresh(Owned - old(Owned))
    {
      hide Linked, Rising, LinksValid, TreeRoot, HashesOf, NodesOf, InLevels;
      if |leaves| == 0 {
        return;
      }
      var bottom := LeafNodes();
      var top;
      ghost var lv;
      top, lv := RaiseAll(bottom);
      root := top.hash;
      if |leaves| > 1 || top.parent == null {
        RecordBuild(lv);
      }
    }

    ghost method RecordBuild(lv: seq<seq<MerkleNode>>)
      requires Tower(H, lv) && leaves != [] && HashesOf(lv[0]) == leaves && forall x | x in NodesOf(lv) :: x in Owned
      requires forall h | h in leaves :: h in nodes && InLevels(lv, nodes[h])
      modifies `built, `levels
      ensures built == leaves && LinksValid()
    {
      built, levels := leaves, lv;
    }
  
    method AddLeaf(leaf: Hash)
      requires Valid()
      modifies `root, `leaves, `nodes, `built, `levels, `Owned, nodes.Values`parent
      ensures Valid() && fresh(Owned - old(Owned)) && old(Owned) <= Owned
      ensures State() == Appended(H, old(State()), leaf) && built == leaves
    {
      hide Tower, HashesOf, InLevels, TreeRoot;
      leaves := leaves + [leaf];
      var leafNode := new MerkleNode(leaf, null, null, true, [], this);
      nodes := nodes[leaf := leafNode];
      Owned := Owned + {leafNode};
      buildTree();
    }

    /** Append the hash of an operation and its commitment as a leaf. */
    method ApplyOperation(data: seq<byte>, commitment: seq<byte>)
      requires Valid()
      modifies `root, `leaves, `nodes, `built, `levels, `Owned, nodes.Values`parent
      ensures Valid() && fresh(Owned - old(Owned)) && old(Owned) <= Owned
      ensures State() == Appended(H, old(State()), H(data + commitment)) && built == leaves
    {
      hide Tower, HashesOf, InLevels, TreeRoot;
      var operationHash := H(data + commitment);
      leaves := leaves + [operationHash];
      var leafNode := new MerkleNode(operationHash, null, null, true, data, this);
      nodes := nodes[operationHash := leafNode];
      Owned := Owned + {leafNode};
      buildTree();
    }

    /**
     * Drop the last leaf and rebuild. When the same hash is also an earlier leaf its map entry is gone, and the
     * rebuild dereferences nil: that outcome is `crashed`.
     */
    method Rollback() returns (crashed: bool)
      requires Valid()
      modifies `root, `leaves, `nodes, `built, `levels, `Owned, nodes.Values`parent
      ensures crashed <==> RolledBack(H, old(State())) == None
      ensures crashed ==> leaves == old(leaves)[..|old(leaves)| - 1] && root == old(root)
      ensures !crashed ==> Some(State()) == RolledBack(H, old(State()))
      ensures !crashed ==> Valid() && old(Owned) <= Owned && fresh(Owned - old(Owned))
      ensures !crashed && |leaves| == 1 ==> built == leaves || Stale()
      ensures !crashed && |leaves| > 1 ==> built == leaves
      ensures !crashed && |old(leaves)| == 2 ==> built == leaves || built == old(leaves)
      ensures !crashed && |old(leaves)| == 2 ==> (TreeRoot(H, built) == root <==> TreeRoot(H, old(leaves)) == leaves[0])
    {
      hide Tower, HashesOf, InLevels, TreeRoot, NodesOf, NextLevel, Linked;
      crashed := false;
      if |leaves| > 0 {
        ghost var given, atTop := leaves, nodes[leaves[0]].parent == null;
        if atTop {
          TopCarriesRoot(H, levels, nodes[leaves[0]]);
        }
        var lastLeaf := leaves[|leaves| - 1];
        leaves := leaves[..|leaves| - 1];
        nodes := nodes - {lastLeaf};
        if lastLeaf in leaves {
          return true;
        }
        buildTree();
        if |given| == 2 {
          RootOfOneLeft(H, given, built, root, atTop);
        }
      }
    }
  
    /**
     * The proof for a key: found from the leaf list, collected by walking the parent pointers. The path is one of the
     * tree that was last built, and the walk ends.
     */
    method GenerateProof(key: seq<byte>) returns (proof: Option<MerkleProof>)
      requires Valid()
      ensures proof.Some? <==> H(key) in leaves
      ensures proof.Some? ==> proof.value.root == root && built != [] && PathIn(H, built, H(key), proof.value.path)
      ensures proof.Some? ==> (Accepts(H, proof.value, key, []) <==> TreeRoot(H, built) == root)
      ensures proof.Some? && built == leaves ==> Accepts(H, proof.value, key, [])
      ensures proof.Some? && |leaves| >= 2 && !IsInnerHash(H, leaves, H(key)) ==> |proof.value.path| == Depth(|leaves|)
    {
      var leafHash := H(key);
      var leafNode: MerkleNode? := null;
      for i := 0 to |leaves|
        invariant leafHash !in leaves[..i] && leafNode == null
      {
        if leaves[i] == leafHash {
          leafNode := nodes[leaves[i]];
          break;
        }
      }
      if leafNode == null {
        assert leafHash !in leaves;
        return None;
      }
      var path := WalkUp(leafNode);
      proof := Some(MerkleProof(path, root));
      ProofRoundTrip(H, built, key, proof.value);
      if |leaves| >= 2 && !IsInnerHash(H, leaves, H(key)) {
        PathLength(H, leaves, H(key), path);
      }
    }

    /** The siblings from a node of the current links up to the root. */
    method WalkUp(start: MerkleNode) returns (path: seq<ProofNode>)
      requires LinksValid() && InLevels(levels, start)
      ensures PathIn(H, built, start.hash, path)
    {
      hide OnPath;
      path := [];
      var current := start;
      ghost var whole, k0, i0 := WalkStarts(H, levels, start);
      ghost var k, i := k0, i0;
      while current.parent != null
        invariant k < |levels| && OnPath(H, levels, k, i, current, path, whole)
        decreases |levels| - k
      {
        SiblingsMet(H, levels, k, i, current, path, whole);
        var up: MerkleNode := current.parent;
        var sibling: MerkleNode?;
        var position: Position;
        if up.left == current {
          sibling, position := up.right, Right;
        } else {
          sibling, position := up.left, Left;
        }
        if sibling != null {
          var node := ProofNode(sibling.hash, position, sibling.isLeaf);
          WalkGoesOn(H, levels, k, i, current, path, whole, node);
          path := path + [node];
        }
        current := up;
        k, i := k + 1, i / 2;
      }
      WalkEnds(H, levels, k0, i0, start, k, i, current, path, whole);
    }
  }

  /** What is left to walk from x, added to the path so far, makes the whole path. */
  ghost predicate OnPath(H: HashFn, levels: seq<seq<MerkleNode>>, k: nat, i: nat, x: MerkleNode, path: seq<ProofNode>,
                         whole: seq<ProofNode>)
    requires k < |levels|
    reads NodesOf(levels)`parent, x`parent
  {
    At(H, levels, k, i, x) && SameSteps(path + AuthPath(H, HashesOf(levels[k]), i), whole)
  }

  lemma {:induction false} WalkStarts(H: HashFn, levels: seq<seq<MerkleNode>>, x: MerkleNode)
    returns (whole: seq<ProofNode>, k: nat, i: nat)
    requires Tower(H, levels) && InLevels(levels, x)
    ensures k < |levels| && i < |levels[k]| && levels[k][i] == x && whole == AuthPath(H, HashesOf(levels[k]), i)
    ensures OnPath(H, levels, k, i, x, [], whole)
  {
    k :| k < |levels| && x in levels[k];
    i := CanonicalIndex(H, levels, k, x);
    whole := AuthPath(H, HashesOf(levels[k]), i);
    assert [] + whole == whole;
  }

  lemma {:induction false} SiblingsMet(H: HashFn, levels: seq<seq<MerkleNode>>, k: nat, i: nat, x: MerkleNode,
                                       path: seq<ProofNode>, whole: seq<ProofNode>)
    requires k < |levels| && OnPath(H, levels, k, i, x, path, whole) && x.parent != null
    ensures k + 1 < |levels| && x.parent.left != null && x.parent.right != null && (x.parent.left == x <==> i % 2 == 0)
  {
    StepUp(H, levels, k, i, x);
  }

  lemma {:induction false} WalkGoesOn(H: HashFn, levels: seq<seq<MerkleNode>>, k: nat, i: nat, x: MerkleNode,
                                      path: seq<ProofNode>, whole: seq<ProofNode>, node: ProofNode)
    requires k + 1 < |levels| && OnPath(H, levels, k, i, x, path, whole)
    requires x.parent != null && x.parent.left != null && x.parent.right != null
    requires node.hash == (if i % 2 == 0 then x.parent.right.hash else x.parent.left.hash)
    requires node.position == if i % 2 == 0 then Right else Left
    ensures OnPath(H, levels, k + 1, i / 2, x.parent, path + [node], whole)
  {
    StepUp(H, levels, k, i, x);
    ExtendPath(path, node, Sibling(HashesOf(levels[k]), i), AuthPath(H, HashesOf(levels[k + 1]), i / 2), whole);
  }

  lemma {:induction false} WalkEnds(H: HashFn, levels: seq<seq<MerkleNode>>, k0: nat, i0: nat, start: MerkleNode,
                                    k: nat, i: nat, x: MerkleNode, path: seq<ProofNode>, whole: seq<ProofNode>)
    requires Tower(H, levels) && k0 < |levels| && i0 < |levels[k0]| && levels[k0][i0] == start
    requires whole == AuthPath(H, HashesOf(levels[k0]), i0)
    requires k < |levels| && OnPath(H, levels, k, i, x, path, whole) && x.parent == null
    ensures levels[0] != [] && PathIn(H, HashesOf(levels[0]), start.hash, path)
  {
    assert path + [] == path;
    assert HashesOf(levels[k0])[i0] == start.hash;
    PathFromLevel(H, levels, k0, start.hash, path);
  }

  /** x sits at position i of level k, points to the node above it, and is an even position's node if it can be. */
  ghost predicate At(H: HashFn, levels: seq<seq<MerkleNode>>, k: nat, i: nat, x: MerkleNode)
    requires k < |levels|
    reads NodesOf(levels)`parent, x`parent
  {
    && Tower(H, levels) && i < |levels[k]| && levels[k][i] == x
    && (k == |levels| - 1 <==> x.parent == null)
    && (k < |levels| - 1 ==> i / 2 < |levels[k + 1]| && x.parent == levels[k + 1][i / 2])
    && (k < |levels| - 1 && i % 2 == 1 ==> levels[k][i - 1] != x)
  }

  lemma {:induction false} CanonicalIndex(H: HashFn, levels: seq<seq<MerkleNode>>, k: nat, x: MerkleNode) returns (i: nat)
    requires Tower(H, levels) && k < |levels| && x in levels[k]
    ensures At(H, levels, k, i, x)
  {
    if k == |levels| - 1 {
      i := 0;
    } else {
      assert LinkedAt(H, levels, k);
      assert PointsUp(levels[k], levels[k + 1], x);
      i :| PointsUpFrom(levels[k], levels[k + 1], x, i);
      if i % 2 == 1 && levels[k][i - 1] == x {
        i := i - 1;
      }
    }
  }

  /** One step of the walk: where it leads, and that the sibling it meets is the one of the authentication path. */
  lemma {:induction false} StepUp(H: HashFn, levels: seq<seq<MerkleNode>>, k: nat, i: nat, x: MerkleNode)
    requires k < |levels| && At(H, levels, k, i, x) && x.parent != null
    ensures k + 1 < |levels| && At(H, levels, k + 1, i / 2, x.parent)
    ensures x.parent.left != null && x.parent.right != null && (x.parent.left == x <==> i % 2 == 0)
    ensures var hs, up := HashesOf(levels[k]), x.parent;
            && Sibling(hs, i).hash == (if i % 2 == 0 then up.right.hash else up.left.hash)
            && AuthPath(H, hs, i) == [Sibling(hs, i)] + AuthPath(H, HashesOf(levels[k + 1]), i / 2)
  {
    var up: MerkleNode := x.parent;
    assert LinkedAt(H, levels, k);
    assert IsParentOfPair(H, levels[k], i / 2, levels[k + 1][i / 2]);
    LinkedHashes(H, levels[k], levels[k + 1]);
    var j := CanonicalIndex(H, levels, k + 1, up);
    assert Distinct(levels[k + 1]);
    assert levels[k + 1][j] == levels[k + 1][i / 2];
  }

  lemma {:induction false} ExtendPath(path: seq<ProofNode>, node: ProofNode, step: ProofNode, rest: seq<ProofNode>,
                                      whole: seq<ProofNode>)
    requires SameSteps(path + ([step] + rest), whole) && node.hash == step.hash && node.position == step.position
    ensures SameSteps(path + [node] + rest, whole)
  {
  }

  /** A path from some level of a tower is a path of the leaf level. */
  lemma {:induction false} PathFromLevel(H: HashFn, levels: seq<seq<MerkleNode>>, k: nat, h: Hash, path: seq<ProofNode>)
    requires Tower(H, levels) && k < |levels| && levels[k] != [] && PathIn(H, HashesOf(levels[k]), h, path)
    ensures levels[0] != [] && PathIn(H, HashesOf(levels[0]), h, path)
  {
    if k > 0 {
      assert LinkedAt(H, levels, k - 1);
      LinkedHashes(H, levels[k - 1], levels[k]);
      PathFromLevel(H, levels, k - 1, h, path);
    }
  }

  /** Of two leaves one is left, and its node was on top of their tree or not: when the last build has the root of the one. */
  lemma {:induction false} RootOfOneLeft(H: HashFn, two: seq<Hash>, built: seq<Hash>, root: Hash, atTop: bool)
    requires |two| == 2 && root == TreeRoot(H, two[..1])
    requires if atTop then built == two[..1] && TreeRoot(H, two) == two[0] else built == two
    ensures TreeRoot(H, built) == root <==> TreeRoot(H, two) == two[0]
  {
  }

  /** A node of a tower that has no parent carries the root of the leaf level. */
  lemma {:induction false} TopCarriesRoot(H: HashFn, levels: seq<seq<MerkleNode>>, x: MerkleNode)
    requires Tower(H, levels) && InLevels(levels, x) && x.parent == null
    ensures levels[0] != [] && TreeRoot(H, HashesOf(levels[0])) == x.hash
  {
    var k :| 0 <= k < |levels| && x in levels[k];
    var i := CanonicalIndex(H, levels, k, x);
    assert HashesOf(levels[k])[i] == x.hash && AuthPath(H, HashesOf(levels[k]), i) == [];
    PathFromLevel(H, levels, k, x.hash, []);
    PathReachesRoot(H, HashesOf(levels[0]), x.hash, []);
  }

  /**
   * Rolling back and proving: a leaf that is left has a proof, which is accepted always but after going from two leaves to
   * one; then exactly if the first leaf is also the root of the two.
   */
  method RollbackThenProve(tree: MerkleTree, key: seq<byte>) returns (crashed: bool, proof: Option<MerkleProof>)
    requires tree.Valid()
    modifies tree`root, tree`leaves, tree`nodes, tree`built, tree`levels, tree`Owned, tree.nodes.Values`parent
    ensures crashed <==> RolledBack(tree.H, old(tree.State())) == None
    ensures !crashed ==> (proof.Some? <==> tree.H(key) in tree.leaves)
    ensures !crashed && proof.Some? ==>
              (Accepts(tree.H, proof.value, key, []) <==>
               |old(tree.leaves)| != 2 || TreeRoot(tree.H, old(tree.leaves)) == old(tree.leaves)[0])
  {
    hide TreeRoot, Accepts;
    proof := None;
    crashed := tree.Rollback();
    if !crashed {
      proof := tree.GenerateProof(key);
    }
  }

  lemma {:induction false} StillInLevels(levels: seq<seq<MerkleNode>>, top: seq<MerkleNode>)
    ensures forall x | InLevels(levels, x) :: InLevels(levels + [top], x)
    ensures NodesOf(levels + [top]) == NodesOf(levels) + (set x | x in top)
  {
    assert forall k | 0 <= k < |levels| :: (levels + [top])[k] == levels[k];
    assert (levels + [top])[|levels|] == top;
    forall x | x in NodesOf(levels + [top]) ensures x in NodesOf(levels) || x in top {
      var k :| 0 <= k < |levels + [top]| && x in (levels + [top])[k];
    }
    forall x | x in NodesOf(levels) ensures x in NodesOf(levels + [top]) {
      var k :| 0 <= k < |levels| && x in levels[k];
      assert x in (levels + [top])[k];
    }
  }

  lemma {:induction false} PartlyLinkedAll(H: HashFn, lower: seq<MerkleNode>, upper: seq<MerkleNode>, at: seq<nat>)
    requires |lower| > 1 && |upper| == (|lower| + 1) / 2 && PartlyLinked(H, lower, upper, at)
    ensures Linked(H, lower, upper)
  {
    forall x | x in lower ensures PointsUp(lower, upper, x) {
      var t :| 0 <= t < |lower| && lower[t] == x;
      assert PointsUpFrom(lower, upper, x, at[t]);
    }
  }
}
