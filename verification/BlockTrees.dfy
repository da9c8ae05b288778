/** Exactly when the order of delivery does not show: the blocks delivered must form a single chain. */
module BlockTrees {
  import opened Types
  import opened Blocks
  import opened Chain
  import opened BlockStore
  import opened ChainRuns
  import opened Confluence

  ghost predicate ParentIn(hash: BlockHash, genesis: Block, tree: set<Block>, b: Block) {
    exists p :: p in tree + {genesis} && Extends(hash, p, b)
  }

  predicate Extends(hash: BlockHash, p: Block, b: Block) {
    b.header.prevBlockHash == hash(p) && b.header.height == p.header.height + 1
  }

  /** Every block is one above genesis or another block of the tree, and all hashes differ. */
  ghost predicate BlockTree(hash: BlockHash, genesis: Block, tree: set<Block>) {
    && genesis !in tree && genesis.header.height == 0
    && (forall b {:trigger ParentIn(hash, genesis, tree, b)} | b in tree :: ParentIn(hash, genesis, tree, b))
    && (forall a, b | a in tree + {genesis} && b in tree + {genesis} && hash(a) == hash(b) :: a == b)
  }

  /** Every delivery brings a block of the tree that is valid at the time, and every block is brought at least once. */
  ghost predicate DeliversTree(tree: set<Block>, ds: seq<Delivery>) {
    && (forall d | d in ds :: d.block in tree && WellFormed(d.block, d.now))
    && (forall b | b in tree :: Brought(ds, b))
  }

  ghost predicate Brought(ds: seq<Delivery>, b: Block) {
    exists d :: d in ds && d.block == b
  }

  /** No two blocks of the tree name the same parent. */
  ghost predicate NoRivals(tree: set<Block>) {
    forall b, c | b in tree && c in tree && b.header.prevBlockHash == c.header.prevBlockHash :: b == c
  }

  // ---- paths ---------------------------------------------------------------------------------

  /** path[0] is genesis and each block extends the one before it. */
  ghost predicate Path(hash: BlockHash, genesis: Block, tree: set<Block>, path: seq<Block>) {
    && path != [] && path[0] == genesis
    && (forall i | 0 < i < |path| :: path[i] in tree)
    && (forall i {:trigger ExtendsAt(hash, path, i)} | 0 < i < |path| :: ExtendsAt(hash, path, i))
  }

  ghost predicate ExtendsAt(hash: BlockHash, path: seq<Block>, i: int)
    requires 0 < i < |path|
  {
    Extends(hash, path[i - 1], path[i])
  }

  lemma {:induction false} PathTo(hash: BlockHash, genesis: Block, tree: set<Block>, b: Block) returns (path: seq<Block>)
    requires BlockTree(hash, genesis, tree) && b in tree + {genesis}
    ensures Path(hash, genesis, tree, path) && path[|path| - 1] == b && |path| == b.header.height + 1
    decreases b.header.height
  {
    if b == genesis {
      path := [genesis];
    } else {
      var p := ParentOf(hash, genesis, tree, b);
      var front := PathTo(hash, genesis, tree, p);
      path := front + [b];
      forall i | 0 < i < |path| ensures path[i] in tree && ExtendsAt(hash, path, i) {
        assert i < |front| ==> path[i] == front[i] && ExtendsAt(hash, front, i);
      }
    }
  }

  lemma {:induction false} PathHeight(hash: BlockHash, genesis: Block, tree: set<Block>, path: seq<Block>, i: nat)
    requires BlockTree(hash, genesis, tree) && Path(hash, genesis, tree, path) && i < |path|
    ensures path[i].header.height == i
  {
    if i > 0 {
      PathHeight(hash, genesis, tree, path, i - 1);
      assert ExtendsAt(hash, path, i);
    }
  }

  lemma {:induction false} PathIsLinkedChain(hash: BlockHash, genesis: Block, tree: set<Block>, path: seq<Block>)
    requires BlockTree(hash, genesis, tree) && Path(hash, genesis, tree, path)
    ensures LinkedChain(hash, path)
  {
    var hs := Hashes(hash, path);
    forall i | 0 < i < |path| ensures LinkedAt(hs, path, i) {
      assert ExtendsAt(hash, path, i);
      PathHeight(hash, genesis, tree, path, i);
    }
    forall i, j | 0 <= i < j < |path| ensures hs[i] != hs[j] {
      PathHeight(hash, genesis, tree, path, i);
      PathHeight(hash, genesis, tree, path, j);
      assert path[i] in tree + {genesis} && path[j] in tree + {genesis};
    }
  }

  // ---- without rivals the tree is one chain ----------------------------------------------------

  lemma {:induction false} Highest(genesis: Block, tree: set<Block>) returns (top: Block)
    requires genesis.header.height == 0
    ensures top in tree + {genesis} && forall b | b in tree :: b.header.height <= top.header.height
    decreases tree
  {
    if tree == {} {
      top := genesis;
    } else {
      var b :| b in tree;
      top := Highest(genesis, tree - {b});
      if b.header.height > top.header.height {
        top := b;
      }
    }
  }

  lemma {:induction false} OnThePath(hash: BlockHash, genesis: Block, tree: set<Block>, path: seq<Block>, b: Block)
    requires BlockTree(hash, genesis, tree) && NoRivals(tree) && Path(hash, genesis, tree, path)
    requires b in tree + {genesis} && b.header.height < |path|
    ensures b == path[b.header.height]
    decreases b.header.height
  {
    if b != genesis {
      var p := ParentOf(hash, genesis, tree, b);
      OnThePath(hash, genesis, tree, path, p);
      assert ExtendsAt(hash, path, b.header.height);
      assert path[b.header.height] in tree;
    }
  }

  lemma {:induction false} ParentOf(hash: BlockHash, genesis: Block, tree: set<Block>, b: Block) returns (p: Block)
    requires BlockTree(hash, genesis, tree) && b in tree
    ensures p in tree + {genesis} && Extends(hash, p, b)
  {
    assert ParentIn(hash, genesis, tree, b);
    p :| p in tree + {genesis} && Extends(hash, p, b);
  }

  lemma {:induction false} TreeIsChain(hash: BlockHash, genesis: Block, tree: set<Block>) returns (path: seq<Block>)
    requires BlockTree(hash, genesis, tree) && NoRivals(tree)
    ensures Path(hash, genesis, tree, path) && forall b | b in tree :: OnChain(path, b)
  {
    var top := Highest(genesis, tree);
    path := PathTo(hash, genesis, tree, top);
    forall b | b in tree ensures OnChain(path, b) {
      OnThePath(hash, genesis, tree, path, b);
    }
  }

  lemma {:induction false} SameEndWithoutRivals(hash: BlockHash, genesis: Block, tree: set<Block>,
                                                xs: seq<Delivery>, ys: seq<Delivery>)
    requires BlockTree(hash, genesis, tree) && NoRivals(tree) && DeliversTree(tree, xs) && DeliversTree(tree, ys)
    ensures Run(hash, GenesisStore(hash, genesis), xs) == Run(hash, GenesisStore(hash, genesis), ys)
  {
    var path := TreeIsChain(hash, genesis, tree);
    PathIsLinkedChain(hash, genesis, tree, path);
    forall i | 0 < i < |path| ensures HasArrived(path, xs, i) && HasArrived(path, ys, i) {
      assert path[i] in tree && Brought(xs, path[i]) && Brought(ys, path[i]);
    }
    DeliveryOrderConfluence(hash, path, xs);
    DeliveryOrderConfluence(hash, path, ys);
  }

  // ---- a rival that comes too late is lost ---------------------------------------------------

  /** c's parent is stored and its height already reached, but c is neither stored nor waiting. */
  ghost predicate Missed(hash: BlockHash, tree: set<Block>, s: Store, c: Block) {
    && c.header.prevBlockHash in s.blocks && c.header.height <= s.currentHeight && hash(c) !in s.blocks
    && (forall h | h in s.orphanBlocks :: s.orphanBlocks[h] in tree && s.orphanBlocks[h] != c)
  }

  lemma {:induction false} ReleaseMisses(hash: BlockHash, genesis: Block, tree: set<Block>, s: Store, h: Hash, c: Block)
    requires BlockTree(hash, genesis, tree) && c in tree && Missed(hash, tree, s, c)
    ensures Missed(hash, tree, Release(hash, s, h), c)
    decreases |s.orphanBlocks|
  {
    if h in s.orphanBlocks {
      ReleaseOne(hash, s, h);
      var orphan, rest := s.orphanBlocks[h], s.(orphanBlocks := s.orphanBlocks - {h});
      assert hash(orphan) != hash(c);
      ReleaseMisses(hash, genesis, tree, File(hash, rest, orphan), hash(orphan), c);
    }
  }

  /** Once a block's parent is stored and the height reached, no later delivery stores the block. */
  lemma {:induction false} MissedForever(hash: BlockHash, genesis: Block, tree: set<Block>, s: Store, c: Block, ds: seq<Delivery>)
    requires BlockTree(hash, genesis, tree) && c in tree && Missed(hash, tree, s, c)
    requires forall d | d in ds :: d.block in tree
    ensures Missed(hash, tree, Run(hash, s, ds), c)
  {
    if ds != [] {
      var front, d := ds[..|ds| - 1], ds[|ds| - 1];
      MissedForever(hash, genesis, tree, s, c, front);
      DeliveryMisses(hash, genesis, tree, Run(hash, s, front), c, d.block, d.now);
    }
  }

  lemma {:induction false} DeliveryMisses(hash: BlockHash, genesis: Block, tree: set<Block>, s: Store, c: Block, b: Block, now: int64)
    requires BlockTree(hash, genesis, tree) && c in tree && b in tree && Missed(hash, tree, s, c)
    ensures Missed(hash, tree, Deliver(hash, s, b, now), c)
  {
    TreeHeightsArePositive(hash, genesis, tree, c);
    if Accepts(s, b, now) {
      TreeHeightsArePositive(hash, genesis, tree, b);
      LaterIsHigher(s.currentHeight, b.header.height);
      assert hash(b) != hash(c);
      ReleaseMisses(hash, genesis, tree, File(hash, s, b), hash(b), c);
    }
  }

  lemma {:induction false} LaterIsHigher(current: uint64, next: uint64)
    requires next == Wrap64(current + 1) && next > 0
    ensures next > current
  {
  }

  lemma {:induction false} TreeHeightsArePositive(hash: BlockHash, genesis: Block, tree: set<Block>, b: Block)
    requires BlockTree(hash, genesis, tree) && b in tree
    ensures b.header.height > 0
  {
    assert ParentIn(hash, genesis, tree, b);
  }

  lemma {:induction false} RunConcat(hash: BlockHash, s: Store, xs: seq<Delivery>, ys: seq<Delivery>)
    ensures Run(hash, s, xs + ys) == Run(hash, Run(hash, s, xs), ys)
  {
    hide Deliver;
    if ys == [] {
      assert xs + ys == xs;
    } else {
      RunConcat(hash, s, xs, ys[..|ys| - 1]);
      assert (xs + ys)[..|xs + ys| - 1] == xs + ys[..|ys| - 1];
    }
  }

  /** Some list of deliveries brings every block of the tree. */
  lemma {:induction false} AllDeliveries(tree: set<Block>, now: int64) returns (ds: seq<Delivery>)
    requires forall b | b in tree :: WellFormed(b, now)
    ensures DeliversTree(tree, ds)
  {
    if tree == {} {
      ds := [];
    } else {
      var b :| b in tree;
      var rest := AllDeliveries(tree - {b}, now);
      ds := rest + [Delivery(b, now)];
      forall a | a in tree ensures Brought(ds, a) {
        if a == b {
          assert Delivery(b, now) in ds;
        } else {
          assert Brought(rest, a);
        }
      }
    }
  }

  ghost function InOrder(path: seq<Block>, now: int64): seq<Delivery> {
    seq<Delivery>(|path|, i requires 0 <= i < |path| => Delivery(path[i], now))
  }

  /** Delivering the path to b first stores b, and then its rival c is lost for good. */
  lemma {:induction false} FirstRivalWins(hash: BlockHash, genesis: Block, tree: set<Block>, b: Block, c: Block, now: int64)
    returns (ds: seq<Delivery>)
    requires BlockTree(hash, genesis, tree) && (forall a | a in tree :: WellFormed(a, now))
    requires b in tree && c in tree && b != c && b.header.prevBlockHash == c.header.prevBlockHash
    ensures DeliversTree(tree, ds)
    ensures var blocks := Run(hash, GenesisStore(hash, genesis), ds).blocks; hash(b) in blocks && hash(c) !in blocks
  {
    var path := PathTo(hash, genesis, tree, b);
    var first := InOrder(path[1..], now);
    var s := StoredPath(hash, genesis, tree, path, now);
    MissedAfterPath(hash, genesis, tree, path, b, c);
    var rest := AllDeliveries(tree, now);
    ds := first + rest;
    assert DeliversTree(tree, ds) by {
      forall a | a in tree ensures Brought(ds, a) {
        assert Brought(rest, a);
      }
    }
    RunConcat(hash, GenesisStore(hash, genesis), first, rest);
    MissedForever(hash, genesis, tree, s, c, rest);
    RunOnlyGrows(hash, s, rest);
  }

  lemma {:induction false} StoredPath(hash: BlockHash, genesis: Block, tree: set<Block>, path: seq<Block>, now: int64)
    returns (s: Store)
    requires BlockTree(hash, genesis, tree) && (forall a | a in tree :: WellFormed(a, now))
    requires Path(hash, genesis, tree, path)
    ensures s == Run(hash, GenesisStore(hash, genesis), InOrder(path[1..], now)) == UpTo(hash, path, |path| - 1)
  {
    var ds := InOrder(path[1..], now);
    s := Run(hash, GenesisStore(hash, genesis), ds);
    PathIsLinkedChain(hash, genesis, tree, path);
    forall d | d in ds ensures WellFormed(d.block, d.now) && OnChain(path, d.block) {
      var i :| 0 <= i < |ds| && ds[i] == d;
      assert d.block == path[i + 1];
    }
    forall i | 0 < i < |path| ensures HasArrived(path, ds, i) {
      assert ds[i - 1] in ds && ds[i - 1].block == path[i];
    }
    DeliveryOrderConfluence(hash, path, ds);
  }

  lemma {:induction false} MissedAfterPath(hash: BlockHash, genesis: Block, tree: set<Block>, path: seq<Block>, b: Block, c: Block)
    requires BlockTree(hash, genesis, tree) && Path(hash, genesis, tree, path) && path[|path| - 1] == b
    requires b in tree && c in tree && b != c && b.header.prevBlockHash == c.header.prevBlockHash
    ensures var s := UpTo(hash, path, |path| - 1); Missed(hash, tree, s, c) && hash(b) in s.blocks
  {
    var k := |path| - 1;
    PathIsLinkedChain(hash, genesis, tree, path);
    PathHeight(hash, genesis, tree, path, k);
    TreeHeightsArePositive(hash, genesis, tree, b);
    UpToHeight(hash, path, k);
    UpToHashes(hash, path, k);
    var hs := Hashes(hash, path);
    assert hs[..k + 1] == hs;
    assert hs[k] == hash(b) && hs[k - 1] == hash(path[k - 1]);
    assert ExtendsAt(hash, path, k);
    SameParentSameHeight(hash, genesis, tree, b, c);
    if hash(c) in hs {
      var i :| 0 <= i < |hs| && hs[i] == hash(c);
      assert path[i] in tree + {genesis};
      PathHeight(hash, genesis, tree, path, i);
      assert false;
    }
  }

  lemma {:induction false} SameParentSameHeight(hash: BlockHash, genesis: Block, tree: set<Block>, b: Block, c: Block)
    requires BlockTree(hash, genesis, tree) && b in tree && c in tree && b.header.prevBlockHash == c.header.prevBlockHash
    ensures b.header.height == c.header.height
  {
    assert ParentIn(hash, genesis, tree, b) && ParentIn(hash, genesis, tree, c);
  }

  // ---- the exact condition -------------------------------------------------------------------

  ghost predicate SameEnd(hash: BlockHash, genesis: Block, xs: seq<Delivery>, ys: seq<Delivery>) {
    Run(hash, GenesisStore(hash, genesis), xs) == Run(hash, GenesisStore(hash, genesis), ys)
  }

  /**
   * Of a tree of blocks that are all valid at some one time, every two lists of valid deliveries that bring every block
   * end in the same store if and only if no two blocks name the same parent.
   */
  lemma {:induction false} OrderIndependence(hash: BlockHash, genesis: Block, tree: set<Block>, now: int64)
    requires BlockTree(hash, genesis, tree) && forall b | b in tree :: WellFormed(b, now)
    ensures (forall xs, ys | DeliversTree(tree, xs) && DeliversTree(tree, ys) :: SameEnd(hash, genesis, xs, ys))
       <==> NoRivals(tree)
  {
    if NoRivals(tree) {
      forall xs, ys | DeliversTree(tree, xs) && DeliversTree(tree, ys) ensures SameEnd(hash, genesis, xs, ys) {
        SameEndWithoutRivals(hash, genesis, tree, xs, ys);
      }
    } else {
      var b, c :| b in tree && c in tree && b.header.prevBlockHash == c.header.prevBlockHash && b != c;
      var xs := FirstRivalWins(hash, genesis, tree, b, c, now);
      var ys := FirstRivalWins(hash, genesis, tree, c, b, now);
      assert !SameEnd(hash, genesis, xs, ys);
    }
  }
}
