/** Orphans are stored without being looked at: what an accepted delivery can let in with the orphans it releases. */
module OrphanEffects {
  import opened Types
  import opened Blocks
  import opened Chain
  import opened BlockStore
  import opened ChainRuns

  /** The blocks that an accepted delivery of b releases, in the order they are filed. */
  function Released(hash: BlockHash, s: Store, b: Block): seq<Block> {
    OrphanChain(hash, s.orphanBlocks, hash(b))
  }

  // ---- validity ------------------------------------------------------------------------------

  ghost predicate AllWellFormed(blocks: map<Hash, Block>, now: int64) {
    forall h | h in blocks :: WellFormed(blocks[h], now)
  }

  ghost predicate HashesDiffer(hash: BlockHash, bs: seq<Block>) {
    forall i, j | 0 <= i < j < |bs| :: hash(bs[i]) != hash(bs[j])
  }

  /** The store's blocks after filing are the old ones and the filed ones, of which none hides another. */
  lemma {:induction false} FiledBlocks(hash: BlockHash, s: Store, bs: seq<Block>, now: int64)
    requires HashesDiffer(hash, bs) && AllWellFormed(s.blocks, now)
    ensures forall b | b in bs :: hash(b) in FileAll(hash, s, bs).blocks && FileAll(hash, s, bs).blocks[hash(b)] == b
    ensures AllWellFormed(FileAll(hash, s, bs).blocks, now) <==> forall b | b in bs :: WellFormed(b, now)
  {
    if bs != [] {
      var front, last := bs[..|bs| - 1], bs[|bs| - 1];
      assert bs == front + [last];
      var before, after := FileAll(hash, s, front), FileAll(hash, s, bs);
      forall b | b in bs ensures hash(b) in after.blocks && after.blocks[hash(b)] == b {
        FiledStays(hash, s, bs, b);
      }
      if forall b | b in bs :: WellFormed(b, now) {
        FiledBlocks(hash, s, front, now);
      }
    }
  }

  lemma {:induction false} FiledStays(hash: BlockHash, s: Store, bs: seq<Block>, b: Block)
    requires HashesDiffer(hash, bs) && b in bs
    ensures hash(b) in FileAll(hash, s, bs).blocks && FileAll(hash, s, bs).blocks[hash(b)] == b
  {
    var i :| 0 <= i < |bs| && bs[i] == b;
    if i < |bs| - 1 {
      assert bs[..|bs| - 1][i] == b;
      FiledStays(hash, s, bs[..|bs| - 1], b);
    }
  }

  /** Released blocks wait for different parents, so their hashes differ from each other. */
  lemma {:induction false} ReleasedDiffer(hash: BlockHash, s: Store, b: Block, known: set<Block>)
    requires Distinguishes(hash, known) && Known(s, known) && PoolKeyed(s)
    ensures HashesDiffer(hash, Released(hash, s, b))
  {
    var c, keys := Released(hash, s, b), Keys(hash, hash(b), Released(hash, s, b));
    OrphanChainIsMaximal(hash, s.orphanBlocks, hash(b));
    forall i, j | 0 <= i < j < |c| ensures hash(c[i]) != hash(c[j]) {
      assert keys[i] in s.orphanBlocks && s.orphanBlocks[keys[i]] == c[i];
      assert keys[j] in s.orphanBlocks && s.orphanBlocks[keys[j]] == c[j];
    }
  }

  /** After an accepted delivery all stored blocks are valid exactly if all released ones are. */
  lemma {:induction false} ValidityAfterDelivery(hash: BlockHash, s: Store, b: Block, now: int64, known: set<Block>)
    requires Distinguishes(hash, known) && Known(s, known) && PoolKeyed(s)
    requires Accepts(s, b, now) && AllWellFormed(s.blocks, now)
    ensures AllWellFormed(Deliver(hash, s, b, now).blocks, now)
       <==> forall x | x in Released(hash, s, b) :: WellFormed(x, now)
  {
    ReleasedDiffer(hash, s, b, known);
    FiledBlocks(hash, File(hash, s, b), Released(hash, s, b), now);
  }

  /** No delivery of the run releases an orphan. */
  ghost predicate ReleasesNothing(hash: BlockHash, s: Store, ds: seq<Delivery>) {
    forall k {:trigger ReleasesNothingAt(hash, s, ds, k)} | 0 <= k < |ds| :: ReleasesNothingAt(hash, s, ds, k)
  }

  ghost predicate ReleasesNothingAt(hash: BlockHash, s: Store, ds: seq<Delivery>, k: int)
    requires 0 <= k < |ds|
  {
    var before := Run(hash, s, ds[..k]);
    Accepts(before, ds[k].block, ds[k].now) ==> Released(hash, before, ds[k].block) == []
  }

  ghost predicate AllHaveFields(blocks: map<Hash, Block>, genesis: Block) {
    forall h | h in blocks :: blocks[h] == genesis || HasFields(blocks[h])
  }

  /** Over a run that releases no orphan every stored block other than genesis has its fields. */
  lemma {:induction false} StoredBlocksHaveFields(hash: BlockHash, genesis: Block, ds: seq<Delivery>)
    requires ReleasesNothing(hash, GenesisStore(hash, genesis), ds)
    ensures AllHaveFields(Run(hash, GenesisStore(hash, genesis), ds).blocks, genesis)
  {
    if ds != [] {
      var s0, front, d := GenesisStore(hash, genesis), ds[..|ds| - 1], ds[|ds| - 1];
      forall k | 0 <= k < |front| ensures ReleasesNothingAt(hash, s0, front, k) {
        assert ReleasesNothingAt(hash, s0, ds, k) && front[..k] == ds[..k];
      }
      StoredBlocksHaveFields(hash, genesis, front);
      assert ReleasesNothingAt(hash, s0, ds, |ds| - 1);
      DeliveryKeepsFields(hash, Run(hash, s0, front), d.block, d.now, genesis);
    }
  }

  lemma {:induction false} DeliveryKeepsFields(hash: BlockHash, s: Store, b: Block, now: int64, genesis: Block)
    requires AllHaveFields(s.blocks, genesis) && (Accepts(s, b, now) ==> Released(hash, s, b) == [])
    ensures AllHaveFields(Deliver(hash, s, b, now).blocks, genesis)
  {
  }

  // ---- gaps ----------------------------------------------------------------------------------

  /** Every height up to the current one has a block. */
  ghost predicate Contiguous(s: Store) {
    forall n: uint64 | n <= s.currentHeight :: n in s.heightToHash
  }

  ghost predicate IndexBounded(s: Store) {
    forall n | n in s.heightToHash :: n <= s.currentHeight
  }

  lemma {:induction false} GapFromOneBlock(hash: BlockHash, s: Store, b: Block)
    requires Contiguous(s) && IndexBounded(s)
    ensures IndexBounded(File(hash, s, b))
    ensures Contiguous(File(hash, s, b)) <==> b.header.height <= s.currentHeight + 1
  {
    var s' := File(hash, s, b);
    if b.header.height > s.currentHeight + 1 {
      var gap: uint64 := s.currentHeight + 1;
      assert gap <= s'.currentHeight && gap !in s'.heightToHash;
    }
  }

  ghost predicate FitsAt(hash: BlockHash, s: Store, bs: seq<Block>, i: int)
    requires 0 <= i < |bs|
  {
    bs[i].header.height <= FileAll(hash, s, bs[..i]).currentHeight + 1
  }

  ghost predicate ContiguousAfter(hash: BlockHash, s: Store, bs: seq<Block>, k: int)
    requires 0 <= k <= |bs|
  {
    Contiguous(FileAll(hash, s, bs[..k]))
  }

  lemma {:induction false} IndexStaysBounded(hash: BlockHash, s: Store, bs: seq<Block>)
    requires IndexBounded(s)
    ensures IndexBounded(FileAll(hash, s, bs))
  {
    if bs != [] {
      IndexStaysBounded(hash, s, bs[..|bs| - 1]);
    }
  }

  lemma {:induction false} NextStepContiguous(hash: BlockHash, s: Store, bs: seq<Block>, k: nat)
    requires IndexBounded(s) && k < |bs| && ContiguousAfter(hash, s, bs, k)
    ensures ContiguousAfter(hash, s, bs, k + 1) <==> FitsAt(hash, s, bs, k)
  {
    IndexStaysBounded(hash, s, bs[..k]);
    GapFromOneBlock(hash, FileAll(hash, s, bs[..k]), bs[k]);
    assert bs[..k + 1][..k] == bs[..k];
  }

  lemma {:induction false} ContiguousUpTo(hash: BlockHash, s: Store, bs: seq<Block>, k: nat)
    requires Contiguous(s) && IndexBounded(s) && k <= |bs|
    requires forall i | 0 <= i < k :: FitsAt(hash, s, bs, i)
    ensures ContiguousAfter(hash, s, bs, k)
  {
    if k > 0 {
      ContiguousUpTo(hash, s, bs, k - 1);
      NextStepContiguous(hash, s, bs, k - 1);
    }
  }

  /** No gap appears at any step of the drain exactly if no block released is more than one above the highest before it. */
  lemma {:induction false} NoGapAtAnyStep(hash: BlockHash, s: Store, b: Block)
    requires Contiguous(s) && IndexBounded(s) && b.header.height <= s.currentHeight + 1
    ensures var s', c := File(hash, s, b), Released(hash, s, b);
            (forall k | 0 <= k <= |c| :: ContiguousAfter(hash, s', c, k)) <==> (forall i | 0 <= i < |c| :: FitsAt(hash, s', c, i))
  {
    var s', c := File(hash, s, b), Released(hash, s, b);
    GapFromOneBlock(hash, s, b);
    if forall k | 0 <= k <= |c| :: ContiguousAfter(hash, s', c, k) {
      forall i | 0 <= i < |c| ensures FitsAt(hash, s', c, i) {
        assert ContiguousAfter(hash, s', c, i) && ContiguousAfter(hash, s', c, i + 1);
        NextStepContiguous(hash, s', c, i);
      }
    }
    if forall i | 0 <= i < |c| :: FitsAt(hash, s', c, i) {
      forall k | 0 <= k <= |c| ensures ContiguousAfter(hash, s', c, k) {
        ContiguousUpTo(hash, s', c, k);
      }
    }
  }

  ghost predicate HasHeight(bs: seq<Block>, n: uint64) {
    exists b :: b in bs && b.header.height == n
  }

  lemma {:induction false} FiledHeights(hash: BlockHash, s: Store, bs: seq<Block>)
    ensures forall n: uint64 :: n in FileAll(hash, s, bs).heightToHash <==> n in s.heightToHash || HasHeight(bs, n)
    ensures var top := FileAll(hash, s, bs).currentHeight;
            (forall b | b in bs :: b.header.height <= top) && s.currentHeight <= top
            && (top == s.currentHeight || HasHeight(bs, top))
  {
    if bs != [] {
      var front, last := bs[..|bs| - 1], bs[|bs| - 1];
      FiledHeights(hash, s, front);
      assert bs == front + [last];
      assert forall b :: b in bs <==> b in front || b == last;
    }
  }

  /** In the end there is no gap exactly if every height between the new block and a released one is that of a released one. */
  lemma {:induction false} NoGapInTheEnd(hash: BlockHash, s: Store, b: Block, now: int64)
    requires Contiguous(s) && IndexBounded(s) && Accepts(s, b, now)
    ensures Contiguous(Deliver(hash, s, b, now)) <==>
            forall x, n: uint64 | x in Released(hash, s, b) && File(hash, s, b).currentHeight < n <= x.header.height ::
              HasHeight(Released(hash, s, b), n)
  {
    var s', c := File(hash, s, b), Released(hash, s, b);
    GapFromOneBlock(hash, s, b);
    FiledHeights(hash, s', c);
    var end := Deliver(hash, s, b, now);
    assert end.heightToHash == FileAll(hash, s', c).heightToHash && end.currentHeight == FileAll(hash, s', c).currentHeight;
    if Contiguous(end) {
      forall x, n: uint64 | x in c && s'.currentHeight < n <= x.header.height ensures HasHeight(c, n) {
        assert n in end.heightToHash && n !in s'.heightToHash;
      }
    } else {
      var n: uint64 :| n <= end.currentHeight && n !in end.heightToHash;
      var x :| x in c && x.header.height == end.currentHeight;
      assert !HasHeight(c, n);
    }
  }

  /** Such input exists: an orphan without a version, far above its parent, is stored and leaves a gap behind. */
  lemma {:induction false} UnvalidatedOrphan(hash: BlockHash, genesis: Block, parent: Block, orphan: Block, now: int64)
    requires genesis.header.height == 0 && parent.header.height == 1 && orphan.header.height == 7
    requires parent.header.prevBlockHash == hash(genesis) && orphan.header.prevBlockHash == hash(parent)
    requires WellFormed(parent, now) && orphan.header.version == 0
    requires hash(genesis) != hash(parent) && hash(parent) != hash(orphan) && hash(genesis) != hash(orphan)
    ensures var s := Run(hash, GenesisStore(hash, genesis), [Delivery(orphan, now), Delivery(parent, now)]);
            && s.currentHeight == 7 && s.heightToHash.Keys == {0, 1, 7}
            && hash(orphan) in s.blocks && s.blocks[hash(orphan)] == orphan && !WellFormed(orphan, now)
  {
    var s0, p := GenesisStore(hash, genesis), hash(parent);
    var one, two := [Delivery(orphan, now)], [Delivery(orphan, now), Delivery(parent, now)];
    assert one[..0] == [] && two[..1] == one;
    assert Run(hash, s0, one) == Deliver(hash, Run(hash, s0, []), orphan, now);
    assert Run(hash, s0, one) == s0.(orphanBlocks := map[p := orphan]);
    var waiting := File(hash, s0.(orphanBlocks := map[p := orphan]), parent);
    assert Run(hash, s0, two) == Release(hash, waiting, p);
    ReleaseOne(hash, waiting, p);
    assert waiting.orphanBlocks - {p} == map[];
    assert Run(hash, s0, two) == File(hash, waiting.(orphanBlocks := map[]), orphan);
  }
}
