/** When the height index is one linked chain: any stored block may be a parent, so this does not come by itself. */
module SingleChain {
  import opened Types
  import opened Blocks
  import opened Chain
  import opened BlockStore
  import opened ChainRuns
  import opened OrphanEffects

  /** The block indexed at height n names the hash indexed below as its parent. */
  ghost predicate LinkedBelow(s: Store, n: uint64)
    requires n > 0
  {
    var below: uint64 := n - 1;
    && n in s.heightToHash && below in s.heightToHash && s.heightToHash[n] in s.blocks
    && s.blocks[s.heightToHash[n]].header.prevBlockHash == s.heightToHash[below]
  }

  /** From the current height down to 0 the index is one linked chain. */
  ghost predicate OneChain(s: Store) {
    forall n: uint64 {:trigger LinkedBelow(s, n)} | 0 < n <= s.currentHeight :: LinkedBelow(s, n)
  }

  /** The block hangs from the block indexed at the current height, one above it. */
  ghost predicate ExtendsTip(s: Store, b: Block) {
    && b.header.height == s.currentHeight + 1
    && s.currentHeight in s.heightToHash && b.header.prevBlockHash == s.heightToHash[s.currentHeight]
  }

  /** Each block hangs from the one before it. */
  ghost predicate HangTogether(hash: BlockHash, bs: seq<Block>) {
    forall i {:trigger HangsAt(hash, bs, i)} | 0 < i < |bs| :: HangsAt(hash, bs, i)
  }

  ghost predicate HangsAt(hash: BlockHash, bs: seq<Block>, i: int)
    requires 0 < i < |bs|
  {
    bs[i].header.prevBlockHash == hash(bs[i - 1])
  }

  /** Each block is one above the one before it. */
  ghost predicate Climb(bs: seq<Block>) {
    forall i {:trigger ClimbsAt(bs, i)} | 0 < i < |bs| :: ClimbsAt(bs, i)
  }

  ghost predicate ClimbsAt(bs: seq<Block>, i: int)
    requires 0 < i < |bs|
  {
    bs[i].header.height == bs[i - 1].header.height + 1
  }

  ghost predicate AllKnown(bs: seq<Block>, known: set<Block>) {
    forall i | 0 <= i < |bs| :: bs[i] in known
  }

  ghost predicate AboveGround(bs: seq<Block>) {
    forall i | 0 <= i < |bs| :: bs[i].header.height > 0
  }

  // ---- climbing blocks keep the chain --------------------------------------------------------

  /** The block was filed last, on top of one chain. */
  ghost predicate TipIs(hash: BlockHash, s: Store, b: Block) {
    && OneChain(s) && s.currentHeight == b.header.height
    && b.header.height in s.heightToHash && s.heightToHash[b.header.height] == hash(b)
  }

  lemma {:induction false} TipExtends(hash: BlockHash, s: Store, b: Block, known: set<Block>)
    requires Distinguishes(hash, known) && b in known && Sound(hash, s, known) && OneChain(s) && ExtendsTip(s, b)
    ensures Sound(hash, File(hash, s, b), known) && TipIs(hash, File(hash, s, b), b)
  {
    assert HeightIndexed(s, s.currentHeight);
    FilingKeepsSound(hash, s, b, known);
    FilingRetains(hash, s, b, known);
    var s' := File(hash, s, b);
    forall n: uint64 | 0 < n <= s'.currentHeight ensures LinkedBelow(s', n) {
      if n <= s.currentHeight {
        assert LinkedBelow(s, n);
      }
    }
  }

  lemma {:induction false} ClimbKeepsOneChain(hash: BlockHash, s: Store, bs: seq<Block>, known: set<Block>)
    requires Distinguishes(hash, known) && Sound(hash, s, known) && OneChain(s)
    requires bs != [] && AllKnown(bs, known) && ExtendsTip(s, bs[0]) && HangTogether(hash, bs) && Climb(bs)
    ensures Sound(hash, FileAll(hash, s, bs), known) && TipIs(hash, FileAll(hash, s, bs), bs[|bs| - 1])
  {
    var front, last := bs[..|bs| - 1], bs[|bs| - 1];
    if front == [] {
      assert FileAll(hash, s, front) == s;
      TipExtends(hash, s, last, known);
    } else {
      PrefixClimbs(hash, bs);
      ClimbKeepsOneChain(hash, s, front, known);
      assert HangsAt(hash, bs, |bs| - 1) && ClimbsAt(bs, |bs| - 1);
      TipExtends(hash, FileAll(hash, s, front), last, known);
    }
  }

  lemma {:induction false} PrefixClimbs(hash: BlockHash, bs: seq<Block>)
    requires bs != [] && HangTogether(hash, bs) && Climb(bs)
    ensures HangTogether(hash, bs[..|bs| - 1]) && Climb(bs[..|bs| - 1])
  {
    var front := bs[..|bs| - 1];
    forall i | 0 < i < |front| ensures HangsAt(hash, front, i) && ClimbsAt(front, i) {
      assert HangsAt(hash, bs, i) && ClimbsAt(bs, i);
    }
  }

  // ---- only climbing blocks do ---------------------------------------------------------------

  /** In a sound store that is one chain, the entry below an indexed block is its parent, one lower. */
  lemma {:induction false} EntryBelow(hash: BlockHash, s: Store, b: Block, known: set<Block>)
    requires Distinguishes(hash, known) && Sound(hash, s, known) && OneChain(s) && b in known && b.header.height > 0
    requires b.header.height in s.heightToHash && s.heightToHash[b.header.height] == hash(b)
    ensures var below: uint64 := b.header.height - 1;
            below in s.heightToHash && s.heightToHash[below] == b.header.prevBlockHash
  {
    assert HeightIndexed(s, b.header.height) && LinkedBelow(s, b.header.height) && BlockIndexed(hash, s, hash(b));
  }

  lemma {:induction false} EntryIsOf(hash: BlockHash, s: Store, b: Block, n: uint64, known: set<Block>)
    requires Distinguishes(hash, known) && Sound(hash, s, known) && b in known
    requires n in s.heightToHash && s.heightToHash[n] == hash(b)
    ensures b.header.height == n
  {
    assert HeightIndexed(s, n) && BlockIndexed(hash, s, hash(b));
  }

  /** Going down from the last block filed, each is one above the one before it and is indexed at its height. */
  lemma {:induction false} DownFromLast(hash: BlockHash, s: Store, bs: seq<Block>, known: set<Block>, j: nat)
    requires Distinguishes(hash, known) && Sound(hash, s, known) && OneChain(s)
    requires j < |bs| && AllKnown(bs, known) && AboveGround(bs) && HangTogether(hash, bs)
    requires var last := bs[|bs| - 1]; last.header.height in s.heightToHash && s.heightToHash[last.header.height] == hash(last)
    ensures bs[j].header.height in s.heightToHash && s.heightToHash[bs[j].header.height] == hash(bs[j])
    ensures forall i {:trigger ClimbsAt(bs, i)} | j < i < |bs| :: ClimbsAt(bs, i)
    decreases |bs| - j
  {
    if j < |bs| - 1 {
      DownFromLast(hash, s, bs, known, j + 1);
      assert HangsAt(hash, bs, j + 1);
      EntryBelow(hash, s, bs[j + 1], known);
      EntryIsOf(hash, s, bs[j], bs[j + 1].header.height - 1, known);
    }
  }

  /** Blocks filed at other heights leave the entry alone. */
  lemma {:induction false} EntryStays(hash: BlockHash, s: Store, bs: seq<Block>, n: uint64)
    requires forall i | 0 <= i < |bs| :: bs[i].header.height != n
    ensures n in FileAll(hash, s, bs).heightToHash <==> n in s.heightToHash
    ensures n in s.heightToHash ==> FileAll(hash, s, bs).heightToHash[n] == s.heightToHash[n]
  {
    if bs != [] {
      EntryStays(hash, s, bs[..|bs| - 1], n);
    }
  }

  lemma {:induction false} ClimbIsAbove(bs: seq<Block>, i: nat)
    requires i < |bs| && Climb(bs)
    ensures bs[i].header.height == bs[0].header.height + i
  {
    if i > 0 {
      ClimbIsAbove(bs, i - 1);
      assert ClimbsAt(bs, i);
    }
  }

  lemma {:induction false} OneChainMeansClimb(hash: BlockHash, s: Store, bs: seq<Block>, known: set<Block>)
    requires Distinguishes(hash, known) && bs != [] && AllKnown(bs, known) && AboveGround(bs)
    requires HangTogether(hash, bs) && bs[0].header.height == s.currentHeight + 1 && s.currentHeight in s.heightToHash
    requires Sound(hash, FileAll(hash, s, bs), known) && OneChain(FileAll(hash, s, bs))
    ensures Climb(bs) && ExtendsTip(s, bs[0])
  {
    var end := FileAll(hash, s, bs);
    DownFromLast(hash, end, bs, known, 0);
    EntryBelow(hash, end, bs[0], known);
    forall i | 0 <= i < |bs| ensures bs[i].header.height != s.currentHeight {
      ClimbIsAbove(bs, i);
    }
    EntryStays(hash, s, bs, s.currentHeight);
  }

  // ---- an accepted delivery ------------------------------------------------------------------

  /** The block delivered and the ones it releases. */
  function Filed(hash: BlockHash, s: Store, b: Block): seq<Block> {
    [b] + Released(hash, s, b)
  }

  lemma {:induction false} FiledHangTogether(hash: BlockHash, s: Store, b: Block, known: set<Block>)
    requires Known(s, known) && PoolKeyed(s) && b in known && b.header.height > 0
    ensures var bs := Filed(hash, s, b); HangTogether(hash, bs) && AllKnown(bs, known) && AboveGround(bs)
  {
    hide OrphanChain;
    var c, keys, bs := Released(hash, s, b), Keys(hash, hash(b), Released(hash, s, b)), Filed(hash, s, b);
    OrphanChainIsMaximal(hash, s.orphanBlocks, hash(b));
    forall i | 0 < i < |bs| ensures HangsAt(hash, bs, i) && bs[i] in known && bs[i].header.height > 0 {
      assert keys[i - 1] in s.orphanBlocks && s.orphanBlocks[keys[i - 1]] == c[i - 1];
    }
  }

  lemma {:induction false} OneChainIgnoresPool(s: Store, pool: map<Hash, Block>)
    ensures OneChain(s.(orphanBlocks := pool)) <==> OneChain(s)
  {
    var s' := s.(orphanBlocks := pool);
    forall n: uint64 | n > 0 ensures LinkedBelow(s', n) <==> LinkedBelow(s, n) {}
  }

  lemma {:induction false} DeliveredIsFiled(hash: BlockHash, s: Store, b: Block, now: int64)
    requires Accepts(s, b, now)
    ensures var end := Deliver(hash, s, b, now);
            FileAll(hash, s, Filed(hash, s, b)) == end.(orphanBlocks := s.orphanBlocks)
  {
    FileAllCons(hash, s, b, Released(hash, s, b));
    FileAllIgnoresPool(hash, File(hash, s, b), s.orphanBlocks, Released(hash, s, b));
  }

  lemma {:induction false} FiledIsSound(hash: BlockHash, s: Store, b: Block, now: int64, known: set<Block>)
    requires Distinguishes(hash, known) && b in known && Sound(hash, s, known) && Accepts(s, b, now)
    ensures Sound(hash, FileAll(hash, s, Filed(hash, s, b)), known)
  {
    DeliveryKeepsSound(hash, s, b, now, known);
    DeliveredIsFiled(hash, s, b, now);
    PoolChangeKeepsSound(hash, Deliver(hash, s, b, now), s.orphanBlocks, known);
  }

  /**
   * The index stays one chain exactly if the block accepted hangs from the tip, and every block released is one above the one
   * it hangs from.
   */
  lemma {:induction false} OneChainAfterDelivery(hash: BlockHash, s: Store, b: Block, now: int64, known: set<Block>)
    requires Distinguishes(hash, known) && b in known && Sound(hash, s, known)
    requires OneChain(s) && Accepts(s, b, now) && b.header.height > 0
    ensures OneChain(Deliver(hash, s, b, now)) <==>
            b.header.prevBlockHash == s.heightToHash[s.currentHeight] && Climb(Filed(hash, s, b))
  {
    hide OneChain, Climb, HangTogether, AllKnown, AboveGround, Deliver, FileAll, OrphanChain, Distinguishes;
    var bs := Filed(hash, s, b);
    FiledHangTogether(hash, s, b, known);
    FiledIsSound(hash, s, b, now, known);
    DeliveredIsFiled(hash, s, b, now);
    OneChainIgnoresPool(Deliver(hash, s, b, now), s.orphanBlocks);
    NextAbove(s.currentHeight, b.header.height);
    if OneChain(Deliver(hash, s, b, now)) {
      OneChainMeansClimb(hash, s, bs, known);
    }
    if b.header.prevBlockHash == s.heightToHash[s.currentHeight] && Climb(bs) {
      ClimbKeepsOneChain(hash, s, bs, known);
    }
  }

  lemma {:induction false} NextAbove(current: uint64, next: uint64)
    requires next == Wrap64(current + 1) && next > 0
    ensures next == current + 1
  {
  }
}
