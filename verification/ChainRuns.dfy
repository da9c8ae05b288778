/** What holds of the block store after any sequence of deliveries. */
module ChainRuns {
  import opened Types
  import opened Blocks
  import opened Chain
  import opened BlockStore

  datatype Delivery = Delivery(block: Block, now: int64)

  /** The store after the deliveries ds, each handled as AddBlock handles it. */
  function Run(hash: BlockHash, s: Store, ds: seq<Delivery>): Store {
    if ds == [] then s
    else Deliver(hash, Run(hash, s, ds[..|ds| - 1]), ds[|ds| - 1].block, ds[|ds| - 1].now)
  }

  // ---- the invariants ------------------------------------------------------------------------

  /** No two of the given blocks have different header bytes and the same hash. */
  ghost predicate CollisionFree(hash: BlockHash, known: set<Block>) {
    forall a, b | a in known && b in known && hash(a) == hash(b) :: Encode(a.header) == Encode(b.header)
  }

  /** What the block store needs of the hash: it determines the height and the parent of a known block. */
  ghost predicate Distinguishes(hash: BlockHash, known: set<Block>) {
    forall a, b | a in known && b in known && hash(a) == hash(b) ::
      a.header.height == b.header.height && a.header.prevBlockHash == b.header.prevBlockHash
  }

  /** A collision-free hash determines them, because the fixed header fields can be read back from the bytes. */
  lemma {:induction false} CollisionFreeDistinguishes(hash: BlockHash, known: set<Block>)
    requires CollisionFree(hash, known)
    ensures Distinguishes(hash, known)
  {
    forall a, b | a in known && b in known && hash(a) == hash(b)
      ensures a.header.height == b.header.height && a.header.prevBlockHash == b.header.prevBlockHash
    {
      EqualEncodings(a.header, b.header);
    }
  }

  ghost predicate Known(s: Store, known: set<Block>) {
    && (forall h | h in s.blocks :: s.blocks[h] in known)
    && (forall h | h in s.orphanBlocks :: s.orphanBlocks[h] in known)
  }

  /** Orphans are filed under the parent they wait for. */
  ghost predicate PoolKeyed(s: Store) {
    forall h | h in s.orphanBlocks ::
      s.orphanBlocks[h].header.prevBlockHash == h && s.orphanBlocks[h].header.height > 0
  }

  /** No orphan waits for a block that is already stored. */
  ghost predicate Settled(s: Store) {
    forall h | h in s.orphanBlocks :: h !in s.blocks
  }

  /** The block stored under h is filed under its own hash, and its height is indexed. */
  ghost predicate BlockIndexed(hash: BlockHash, s: Store, h: Hash)
    requires h in s.blocks
  {
    hash(s.blocks[h]) == h && s.blocks[h].header.height in s.heightToHash
  }

  /** The index entry for height n names a stored block of that height, and n is not above the current height. */
  ghost predicate HeightIndexed(s: Store, n: uint64)
    requires n in s.heightToHash
  {
    var h := s.heightToHash[n];
    h in s.blocks && s.blocks[h].header.height == n && n <= s.currentHeight
  }

  /** The block map, the height index and the current height agree. */
  ghost predicate Indexed(hash: BlockHash, s: Store) {
    && (forall h {:trigger BlockIndexed(hash, s, h)} | h in s.blocks :: BlockIndexed(hash, s, h))
    && (forall n {:trigger HeightIndexed(s, n)} | n in s.heightToHash :: HeightIndexed(s, n))
    && s.currentHeight in s.heightToHash
  }

  /** Following prevBlockHash from h reaches a stored block of height 0 within n steps, through stored blocks only. */
  ghost predicate Descends(blocks: map<Hash, Block>, h: Hash, n: nat)
    decreases n
  {
    h in blocks && (blocks[h].header.height == 0 || (n > 0 && Descends(blocks, blocks[h].header.prevBlockHash, n - 1)))
  }

  ghost predicate Grounded(blocks: map<Hash, Block>, h: Hash) {
    exists n: nat :: Descends(blocks, h, n)
  }

  ghost predicate Rooted(s: Store) {
    forall h {:trigger Grounded(s.blocks, h)} | h in s.blocks :: Grounded(s.blocks, h)
  }

  ghost predicate Sound(hash: BlockHash, s: Store, known: set<Block>) {
    Known(s, known) && PoolKeyed(s) && Indexed(hash, s) && Rooted(s)
  }

  // ---- one block filed -----------------------------------------------------------------------

  /** Every block of `small` is still there with the same height and parent. */
  ghost predicate Retains(small: map<Hash, Block>, big: map<Hash, Block>) {
    forall h | h in small ::
      h in big && big[h].header.height == small[h].header.height
      && big[h].header.prevBlockHash == small[h].header.prevBlockHash
  }

  lemma {:induction false} DescentRetained(small: map<Hash, Block>, big: map<Hash, Block>, h: Hash, n: nat)
    requires Retains(small, big) && Descends(small, h, n)
    ensures Descends(big, h, n)
    decreases n
  {
    if small[h].header.height != 0 {
      DescentRetained(small, big, small[h].header.prevBlockHash, n - 1);
    }
  }

  lemma {:induction false} FilingRetains(hash: BlockHash, s: Store, b: Block, known: set<Block>)
    requires Distinguishes(hash, known) && b in known && Known(s, known) && Indexed(hash, s)
    ensures Retains(s.blocks, File(hash, s, b).blocks)
  {
    if hash(b) in s.blocks {
      assert BlockIndexed(hash, s, hash(b));
    }
  }

  lemma {:induction false} FilingKeepsIndexed(hash: BlockHash, s: Store, b: Block)
    requires Indexed(hash, s) && Retains(s.blocks, File(hash, s, b).blocks)
    ensures Indexed(hash, File(hash, s, b))
  {
    var s' := File(hash, s, b);
    forall h | h in s'.blocks ensures BlockIndexed(hash, s', h) {
      assert h in s.blocks ==> BlockIndexed(hash, s, h);
    }
    forall n | n in s'.heightToHash ensures HeightIndexed(s', n) {
      assert n in s.heightToHash ==> HeightIndexed(s, n);
    }
  }

  lemma {:induction false} FilingKeepsRooted(hash: BlockHash, s: Store, b: Block)
    requires Retains(s.blocks, File(hash, s, b).blocks) && Rooted(s)
    requires b.header.height == 0 || b.header.prevBlockHash in s.blocks
    ensures Rooted(File(hash, s, b))
  {
    var s' := File(hash, s, b);
    forall h | h in s.blocks ensures Grounded(s'.blocks, h) {
      assert Grounded(s.blocks, h);
      var n: nat :| Descends(s.blocks, h, n);
      DescentRetained(s.blocks, s'.blocks, h, n);
    }
    if b.header.height == 0 {
      assert Descends(s'.blocks, hash(b), 0);
    } else {
      assert Grounded(s'.blocks, b.header.prevBlockHash);
      var n: nat :| Descends(s'.blocks, b.header.prevBlockHash, n);
      assert Descends(s'.blocks, hash(b), n + 1);
    }
  }

  lemma {:induction false} FilingKeepsSound(hash: BlockHash, s: Store, b: Block, known: set<Block>)
    requires Distinguishes(hash, known) && b in known && Sound(hash, s, known)
    requires b.header.height == 0 || b.header.prevBlockHash in s.blocks
    ensures Sound(hash, File(hash, s, b), known)
  {
    FilingRetains(hash, s, b, known);
    FilingKeepsIndexed(hash, s, b);
    FilingKeepsRooted(hash, s, b);
  }

  /** Apart from who waits in it, the orphan pool has no part in soundness. */
  lemma {:induction false} PoolChangeKeepsSound(hash: BlockHash, s: Store, pool: map<Hash, Block>, known: set<Block>)
    requires Sound(hash, s, known)
    requires Known(s.(orphanBlocks := pool), known) && PoolKeyed(s.(orphanBlocks := pool))
    ensures Sound(hash, s.(orphanBlocks := pool), known)
  {
    var s' := s.(orphanBlocks := pool);
    forall h | h in s'.blocks ensures BlockIndexed(hash, s', h) {
      assert BlockIndexed(hash, s, h);
    }
    forall n | n in s'.heightToHash ensures HeightIndexed(s', n) {
      assert HeightIndexed(s, n);
    }
    forall h | h in s'.blocks ensures Grounded(s'.blocks, h) {
      assert Grounded(s.blocks, h);
    }
  }

  lemma {:induction false} ReleaseKeepsSound(hash: BlockHash, s: Store, h: Hash, known: set<Block>)
    requires Distinguishes(hash, known) && Sound(hash, s, known) && h in s.blocks
    ensures Sound(hash, Release(hash, s, h), known)
    decreases |s.orphanBlocks|
  {
    if h in s.orphanBlocks {
      ReleaseOne(hash, s, h);
      var orphan, rest := s.orphanBlocks[h], s.(orphanBlocks := s.orphanBlocks - {h});
      PoolChangeKeepsSound(hash, s, rest.orphanBlocks, known);
      FilingKeepsSound(hash, rest, orphan, known);
      ReleaseKeepsSound(hash, File(hash, rest, orphan), hash(orphan), known);
    }
  }

  lemma {:induction false} DeliveryKeepsSound(hash: BlockHash, s: Store, b: Block, now: int64, known: set<Block>)
    requires Distinguishes(hash, known) && b in known && Sound(hash, s, known)
    ensures Sound(hash, Deliver(hash, s, b, now), known)
  {
    if ParentMissing(s.blocks, b) {
      PoolChangeKeepsSound(hash, s, s.orphanBlocks[b.header.prevBlockHash := b], known);
    } else if Accepts(s, b, now) {
      FilingKeepsSound(hash, s, b, known);
      ReleaseKeepsSound(hash, File(hash, s, b), hash(b), known);
    }
  }

  // ---- all runs ------------------------------------------------------------------------------

  ghost function BlocksOf(ds: seq<Delivery>): set<Block> {
    set d | d in ds :: d.block
  }

  lemma {:induction false} RunIsSound(hash: BlockHash, genesis: Block, ds: seq<Delivery>, known: set<Block>)
    requires genesis.header.height == 0 && Distinguishes(hash, known)
    requires genesis in known && BlocksOf(ds) <= known
    ensures Sound(hash, Run(hash, GenesisStore(hash, genesis), ds), known)
  {
    if ds == [] {
      assert Descends(GenesisStore(hash, genesis).blocks, hash(genesis), 0);
    } else {
      var front := ds[..|ds| - 1];
      assert ds[|ds| - 1].block in BlocksOf(ds);
      assert BlocksOf(front) <= BlocksOf(ds);
      RunIsSound(hash, genesis, front, known);
      DeliveryKeepsSound(hash, Run(hash, GenesisStore(hash, genesis), front), ds[|ds| - 1].block, ds[|ds| - 1].now, known);
    }
  }

  lemma {:induction false} IndexedMeans(hash: BlockHash, s: Store)
    requires Indexed(hash, s)
    ensures forall h | h in s.blocks :: hash(s.blocks[h]) == h && s.blocks[h].header.height <= s.currentHeight
    ensures forall n | n in s.heightToHash ::
              s.heightToHash[n] in s.blocks && s.blocks[s.heightToHash[n]].header.height == n
    ensures s.heightToHash.Keys == (set h | h in s.blocks :: s.blocks[h].header.height)
  {
    forall h | h in s.blocks
      ensures hash(s.blocks[h]) == h && s.blocks[h].header.height in s.heightToHash
      ensures s.blocks[h].header.height <= s.currentHeight
    {
      assert BlockIndexed(hash, s, h) && HeightIndexed(s, s.blocks[h].header.height);
    }
    forall n | n in s.heightToHash
      ensures s.heightToHash[n] in s.blocks && s.blocks[s.heightToHash[n]].header.height == n
    {
      assert HeightIndexed(s, n);
    }
  }

  /** Index agreement: in every reachable state the three indexes describe the same set of stored blocks. */
  lemma {:induction false} IndexAgreement(hash: BlockHash, genesis: Block, ds: seq<Delivery>)
    requires genesis.header.height == 0 && CollisionFree(hash, {genesis} + BlocksOf(ds))
    ensures var s := Run(hash, GenesisStore(hash, genesis), ds);
            && (forall h | h in s.blocks :: hash(s.blocks[h]) == h && s.blocks[h].header.height <= s.currentHeight)
            && (forall n | n in s.heightToHash ::
                  s.heightToHash[n] in s.blocks && s.blocks[s.heightToHash[n]].header.height == n)
            && s.heightToHash.Keys == (set h | h in s.blocks :: s.blocks[h].header.height)
            && s.currentHeight in s.heightToHash
  {
    CollisionFreeDistinguishes(hash, {genesis} + BlocksOf(ds));
    RunIsSound(hash, genesis, ds, {genesis} + BlocksOf(ds));
    IndexedMeans(hash, Run(hash, GenesisStore(hash, genesis), ds));
  }

  /** In every reachable state the lookup by height finds a block exactly for stored heights: one of that height, never nil. */
  lemma {:induction false} HeightLookup(hash: BlockHash, genesis: Block, ds: seq<Delivery>, n: uint64)
    requires genesis.header.height == 0 && CollisionFree(hash, {genesis} + BlocksOf(ds))
    ensures var s := Run(hash, GenesisStore(hash, genesis), ds);
            && (n in s.heightToHash <==> exists h :: h in s.blocks && s.blocks[h].header.height == n)
            && (n in s.heightToHash ==> s.heightToHash[n] in s.blocks && s.blocks[s.heightToHash[n]].header.height == n)
  {
    IndexAgreement(hash, genesis, ds);
  }

  lemma {:induction false} GroundedParent(blocks: map<Hash, Block>, h: Hash)
    requires Grounded(blocks, h)
    ensures h in blocks && (blocks[h].header.height > 0 ==> Grounded(blocks, blocks[h].header.prevBlockHash))
  {
    var n: nat :| Descends(blocks, h, n);
    if blocks[h].header.height > 0 {
      assert Descends(blocks, blocks[h].header.prevBlockHash, n - 1);
    }
  }

  /** Parent reachability: every stored block above height 0 has its parent stored, and the walk down ends at height 0. */
  lemma {:induction false} ParentReachability(hash: BlockHash, genesis: Block, ds: seq<Delivery>, h: Hash)
    requires genesis.header.height == 0 && CollisionFree(hash, {genesis} + BlocksOf(ds))
    requires h in Run(hash, GenesisStore(hash, genesis), ds).blocks
    ensures var blocks := Run(hash, GenesisStore(hash, genesis), ds).blocks;
            && Grounded(blocks, h)
            && (blocks[h].header.height > 0 ==> blocks[h].header.prevBlockHash in blocks)
  {
    CollisionFreeDistinguishes(hash, {genesis} + BlocksOf(ds));
    RunIsSound(hash, genesis, ds, {genesis} + BlocksOf(ds));
    var blocks := Run(hash, GenesisStore(hash, genesis), ds).blocks;
    GroundedParent(blocks, h);
    if blocks[h].header.height > 0 {
      GroundedParent(blocks, blocks[h].header.prevBlockHash);
    }
  }

  /** The node itself: from its own genesis block, with blocks named by the hash of their headers. */
  lemma {:induction false} NodeIsSound(H: HashFn, start: int64, ds: seq<Delivery>)
    requires CollisionFree(HeaderHash(H), {GenesisBlock(H, start)} + BlocksOf(ds))
    ensures var genesis := GenesisBlock(H, start);
            var s := Run(HeaderHash(H), GenesisStore(HeaderHash(H), genesis), ds);
            && H(Encode(genesis.header)) in s.blocks && 0 in s.heightToHash
            && (forall h | h in s.blocks :: H(Encode(s.blocks[h].header)) == h && Grounded(s.blocks, h))
            && s.heightToHash.Keys == (set h | h in s.blocks :: s.blocks[h].header.height)
  {
    var hash, genesis := HeaderHash(H), GenesisBlock(H, start);
    IndexAgreement(hash, genesis, ds);
    RunOnlyGrows(hash, GenesisStore(hash, genesis), ds);
    var s := Run(hash, GenesisStore(hash, genesis), ds);
    forall h | h in s.blocks ensures Grounded(s.blocks, h) {
      ParentReachability(hash, genesis, ds, h);
    }
    RunGrowsIndex(hash, GenesisStore(hash, genesis), ds, 0);
  }

  lemma {:induction false} RunGrowsIndex(hash: BlockHash, s: Store, ds: seq<Delivery>, n: uint64)
    requires n in s.heightToHash
    ensures n in Run(hash, s, ds).heightToHash
  {
    if ds != [] {
      var front, d := ds[..|ds| - 1], ds[|ds| - 1];
      RunGrowsIndex(hash, s, front, n);
      var t := Run(hash, s, front);
      if Accepts(t, d.block, d.now) {
        FilingGrowsIndex(hash, File(hash, t, d.block), OrphanChain(hash, t.orphanBlocks, hash(d.block)), n);
      }
    }
  }

  lemma {:induction false} FilingGrowsIndex(hash: BlockHash, s: Store, bs: seq<Block>, n: uint64)
    requires n in s.heightToHash
    ensures n in FileAll(hash, s, bs).heightToHash
  {
    if bs != [] {
      FilingGrowsIndex(hash, s, bs[..|bs| - 1], n);
    }
  }

  lemma {:induction false} ReleaseSettles(hash: BlockHash, s: Store, h: Hash)
    requires forall k | k in s.orphanBlocks && k != h :: k !in s.blocks
    ensures Settled(Release(hash, s, h))
    decreases |s.orphanBlocks|
  {
    if h in s.orphanBlocks {
      ReleaseOne(hash, s, h);
      var orphan, rest := s.orphanBlocks[h], s.(orphanBlocks := s.orphanBlocks - {h});
      ReleaseSettles(hash, File(hash, rest, orphan), hash(orphan));
    }
  }

  /** After every delivery of every run, no orphan is waiting for a stored block; hash collisions do not matter here. */
  lemma {:induction false} RunIsSettled(hash: BlockHash, genesis: Block, ds: seq<Delivery>)
    ensures Settled(Run(hash, GenesisStore(hash, genesis), ds))
  {
    if ds != [] {
      RunIsSettled(hash, genesis, ds[..|ds| - 1]);
      var s, d := Run(hash, GenesisStore(hash, genesis), ds[..|ds| - 1]), ds[|ds| - 1];
      if Accepts(s, d.block, d.now) {
        ReleaseSettles(hash, File(hash, s, d.block), hash(d.block));
      }
    }
  }

  lemma {:induction false} FilingGrows(hash: BlockHash, s: Store, bs: seq<Block>)
    ensures s.currentHeight <= FileAll(hash, s, bs).currentHeight
    ensures s.blocks.Keys <= FileAll(hash, s, bs).blocks.Keys
  {
    if bs != [] {
      FilingGrows(hash, s, bs[..|bs| - 1]);
    }
  }

  /** Heights never go down and hashes never disappear, from any state on. */
  lemma {:induction false} RunOnlyGrows(hash: BlockHash, s: Store, ds: seq<Delivery>)
    ensures s.currentHeight <= Run(hash, s, ds).currentHeight
    ensures s.blocks.Keys <= Run(hash, s, ds).blocks.Keys
  {
    if ds != [] {
      var front, d := ds[..|ds| - 1], ds[|ds| - 1];
      RunOnlyGrows(hash, s, front);
      var t := Run(hash, s, front);
      if Accepts(t, d.block, d.now) {
        FilingGrows(hash, File(hash, t, d.block), OrphanChain(hash, t.orphanBlocks, hash(d.block)));
      }
    }
  }
}
