/** The hierarchy of shards: parent pointers and depths that survive every split and merge. */
module ShardTrees {
  import opened Types

  class ShardNode {
    const shardID: uint32
    const parent: ShardNode?
    const depth: nat
    var children: seq<ShardNode>

    constructor (shardID: uint32, parent: ShardNode?, depth: nat)
      ensures this.shardID == shardID && this.parent == parent && this.depth == depth && children == []
    {
      this.shardID, this.parent, this.depth := shardID, parent, depth;
      children := [];
    }
  }

  /** The parent chain of n gives each node the depth of its parent plus one and ends in root, which has none. */
  ghost predicate Rooted(n: ShardNode, root: ShardNode)
    decreases n.depth
  {
    if n.parent == null then n == root && n.depth == 0
    else n.depth == n.parent.depth + 1 && Rooted(n.parent, root)
  }

  /** Where k steps up from n lead; null once the walk has passed the root. */
  ghost function Walk(n: ShardNode?, k: nat): ShardNode?
    decreases k
  {
    if n == null || k == 0 then n else Walk(n.parent, k - 1)
  }

  /** Walking up reaches the root after exactly `depth` steps: no sooner, and one more step leaves the tree. */
  lemma {:induction false} WalkReachesRoot(n: ShardNode, root: ShardNode, k: nat)
    requires Rooted(n, root)
    ensures Walk(n, k) == root <==> k == n.depth
    ensures Walk(n, k) == null <==> k > n.depth
    decreases n.depth
  {
    if n.parent == null {
      assert k > 0 ==> Walk(n, k) == Walk(null, k - 1);
    } else if k == 0 {
      RootIsOnTop(n, root);
    } else {
      WalkReachesRoot(n.parent, root, k - 1);
    }
  }

  lemma {:induction false} RootIsOnTop(n: ShardNode, root: ShardNode)
    requires Rooted(n, root)
    ensures root.parent == null && root.depth == 0 && (n == root <==> n.parent == null) && (n == root <==> n.depth == 0)
    decreases n.depth
  {
    if n.parent != null {
      RootIsOnTop(n.parent, root);
    }
  }

  /** The children of other shards, in their order. */
  function Kept(children: seq<ShardNode>, id1: uint32, id2: uint32): seq<ShardNode> {
    if children == [] then []
    else
      var front, last := Kept(children[..|children| - 1], id1, id2), children[|children| - 1];
      if last.shardID != id1 && last.shardID != id2 then front + [last] else front
  }

  lemma {:induction false} KeptMembers(children: seq<ShardNode>, id1: uint32, id2: uint32)
    ensures forall c :: c in Kept(children, id1, id2) <==> c in children && c.shardID != id1 && c.shardID != id2
  {
    if children != [] {
      KeptMembers(children[..|children| - 1], id1, id2);
      assert children == children[..|children| - 1] + [children[|children| - 1]];
    }
  }

  /** Leaving out goes child by child, in order. */
  lemma {:induction false} KeptConcat(first: seq<ShardNode>, second: seq<ShardNode>, id1: uint32, id2: uint32)
    ensures Kept(first + second, id1, id2) == Kept(first, id1, id2) + Kept(second, id1, id2)
  {
    if second == [] {
      assert first + second == first;
    } else {
      var front := second[..|second| - 1];
      KeptConcat(first, front, id1, id2);
      assert (first + second)[..|first + second| - 1] == first + front;
    }
  }

  /** The loop over a node's children that leaves out two shards. */
  method KeepOthers(children: seq<ShardNode>, id1: uint32, id2: uint32) returns (kept: seq<ShardNode>)
    ensures kept == Kept(children, id1, id2)
    ensures forall c :: c in kept <==> c in children && c.shardID != id1 && c.shardID != id2
  {
    kept := [];
    for i := 0 to |children|
      invariant kept == Kept(children[..i], id1, id2)
    {
      assert children[..i + 1][..i] == children[..i];
      var child := children[i];
      if child.shardID != id1 && child.shardID != id2 {
        kept := kept + [child];
      }
    }
    assert children[..|children|] == children;
    KeptMembers(children, id1, id2);
  }

  ghost predicate Placed(n: ShardNode, root: ShardNode, nodes: set<ShardNode>) {
    Rooted(n, root) && (n.parent != null ==> n.parent in nodes)
  }

  ghost predicate ListsOwnChildren(n: ShardNode, nodes: set<ShardNode>)
    reads n
  {
    forall c | c in n.children :: c in nodes && c.parent == n
  }

  class ShardTree {
    var root: ShardNode?
    var nodeMap: map<uint32, ShardNode>

    /** Every node ever made, including those no longer in the map. */
    ghost var Nodes: set<ShardNode>

    /** All nodes hang off the one root and list only their own children. */
    ghost predicate Shaped()
      reads this, Nodes
    {
      && (root == null ==> Nodes == {})
      && (root != null ==> root in Nodes)
      && (root != null ==> forall n {:trigger Placed(n, root, Nodes)} | n in Nodes :: Placed(n, root, Nodes))
      && (forall n {:trigger ListsOwnChildren(n, Nodes)} | n in Nodes :: ListsOwnChildren(n, Nodes))
    }

    ghost predicate Valid()
      reads this, Nodes
    {
      Shaped() && forall id | id in nodeMap :: nodeMap[id] in Nodes && nodeMap[id].shardID == id
    }

    constructor ()
      ensures Valid() && root == null && nodeMap == map[]
    {
      root, nodeMap, Nodes := null, map[], {};
    }

    /** Only the first root keeps the hierarchy in one piece. */
    method AddRootNode(shardID: uint32)
      requires Valid()
      modifies this
      ensures root != null && fresh(root) && root.shardID == shardID && root.children == []
      ensures root.parent == null && root.depth == 0
      ensures nodeMap == old(nodeMap)[shardID := root]
      ensures old(root) == null ==> Valid() && Nodes == {root}
    {
      root := new ShardNode(shardID, null, 0);
      nodeMap := nodeMap[shardID := root];
      Nodes := Nodes + {root};
    }

    /** Give a node a new list of children, which may hold new nodes. */
    method SetChildren(parent: ShardNode, children: seq<ShardNode>)
      requires Shaped() && parent in Nodes
      requires forall c | c in children :: c.parent == parent
      requires forall c | c in children && c !in Nodes :: c.depth == parent.depth + 1 && c.children == []
      modifies `Nodes, parent`children
      ensures Shaped() && Nodes == old(Nodes) + SetOf(children) && parent.children == children
    {
      parent.children := children;
      Nodes := Nodes + SetOf(children);
      assert Placed(parent, root, old(Nodes));
      forall n | n in Nodes ensures Placed(n, root, Nodes) && ListsOwnChildren(n, Nodes) {
        if n in old(Nodes) {
          assert Placed(n, root, old(Nodes)) && old(ListsOwnChildren(n, Nodes));
        } else {
          assert n in children;
        }
      }
    }

    /** Hang two new nodes under a shard; with equal IDs the map keeps the right one. */
    method AddChildNodes(parentID: uint32, leftID: uint32, rightID: uint32)
      requires Valid()
      modifies this, Nodes`children
      ensures Valid() && root == old(root) && old(Nodes) <= Nodes && fresh(Nodes - old(Nodes))
      ensures parentID !in old(nodeMap) ==> nodeMap == old(nodeMap) && Nodes == old(Nodes)
      ensures parentID in old(nodeMap) ==>
                var parent := old(nodeMap)[parentID];
                && |parent.children| == 2
                && parent.children[0].shardID == leftID && parent.children[1].shardID == rightID
                && (forall c | c in parent.children :: fresh(c) && c.parent == parent && c.depth == parent.depth + 1)
                && nodeMap == old(nodeMap)[leftID := parent.children[0]][rightID := parent.children[1]]
      ensures forall n | n in old(Nodes) && !(parentID in old(nodeMap) && n == old(nodeMap)[parentID]) ::
                n.children == old(n.children)
    {
      if parentID !in nodeMap {
        return;
      }
      var parent := nodeMap[parentID];
      var leftChild := new ShardNode(leftID, parent, parent.depth + 1);
      var rightChild := new ShardNode(rightID, parent, parent.depth + 1);
      SetChildren(parent, [leftChild, rightChild]);
      nodeMap := nodeMap[leftID := leftChild];
      nodeMap := nodeMap[rightID := rightChild];
    }

    /** Put one node in the place of two siblings. Without a parent, dereferencing it is the outcome `crashed`. */
    method ReplaceNodes(id1: uint32, id2: uint32, mergedID: uint32) returns (crashed: bool)
      requires Valid()
      modifies this, Nodes`children
      ensures Valid() && root == old(root) && old(Nodes) <= Nodes && fresh(Nodes - old(Nodes))
      ensures crashed <==> id1 == id2 && id1 in old(nodeMap) && old(nodeMap)[id1] == root
      ensures var siblings := id1 in old(nodeMap) && id2 in old(nodeMap)
                              && old(nodeMap)[id1].parent == old(nodeMap)[id2].parent;
              if !siblings || crashed then
                nodeMap == old(nodeMap) && Nodes == old(Nodes) && forall n | n in Nodes :: n.children == old(n.children)
              else
                var parent := old(nodeMap)[id1].parent;
                && parent != null && mergedID in nodeMap
                && nodeMap == (old(nodeMap) - {id1, id2})[mergedID := nodeMap[mergedID]]
                && parent.children == Kept(old(parent.children), id1, id2) + [nodeMap[mergedID]]
                && nodeMap[mergedID].parent == parent && nodeMap[mergedID].depth == old(nodeMap)[id1].depth
                && fresh(nodeMap[mergedID])
                && forall n | n in old(Nodes) && n != parent :: n.children == old(n.children)
    {
      crashed := false;
      if id1 !in nodeMap || id2 !in nodeMap || nodeMap[id1].parent != nodeMap[id2].parent {
        return;
      }
      var parent := nodeMap[id1].parent;
      assert Placed(nodeMap[id1], root, Nodes) && Placed(nodeMap[id2], root, Nodes);
      RootIsOnTop(nodeMap[id1], root);
      RootIsOnTop(nodeMap[id2], root);
      if parent == null {
        return true;
      }
      MergeChildren(parent, id1, id2, mergedID);
    }

    /** The two siblings' parent gets the merged node in their place, as its last child. */
    method MergeChildren(parent: ShardNode, id1: uint32, id2: uint32, mergedID: uint32)
      requires Valid() && parent in Nodes && id1 in nodeMap && nodeMap[id1].parent == parent
      modifies `nodeMap, `Nodes, parent`children
      ensures Valid() && old(Nodes) <= Nodes && fresh(Nodes - old(Nodes)) && mergedID in nodeMap
      ensures nodeMap == (old(nodeMap) - {id1, id2})[mergedID := nodeMap[mergedID]]
      ensures parent.children == Kept(old(parent.children), id1, id2) + [nodeMap[mergedID]]
      ensures nodeMap[mergedID].parent == parent && nodeMap[mergedID].depth == old(nodeMap)[id1].depth
      ensures fresh(nodeMap[mergedID])
    {
      assert Placed(nodeMap[id1], root, Nodes);
      var mergedNode := new ShardNode(mergedID, parent, nodeMap[id1].depth);
      var newChildren := KeepOthers(parent.children, id1, id2);
      assert ListsOwnChildren(parent, Nodes);
      SetChildren(parent, newChildren + [mergedNode]);
      nodeMap := nodeMap - {id1};
      nodeMap := nodeMap - {id2};
      assert nodeMap == old(nodeMap) - {id1, id2};
      nodeMap := nodeMap[mergedID := mergedNode];
    }
  }
}
