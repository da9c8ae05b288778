/** Delivery-order confluence: the order in which a linked chain arrives does not show in the final store. */
module Confluence {
  import opened Types
  import opened Blocks
  import opened Chain
  import opened BlockStore
  import opened ChainRuns

  ghost function Hashes(hash: BlockHash, bs: seq<Block>): seq<Hash> {
    seq(|bs|, i requires 0 <= i < |bs| => hash(bs[i]))
  }

  /** The i-th block has height i and names hs[i-1] as its parent. */
  ghost predicate LinkedAt(hs: seq<Hash>, bs: seq<Block>, i: int)
    requires 0 < i < |bs| && |hs| == |bs|
  {
    bs[i].header.height == i && bs[i].header.prevBlockHash == hs[i - 1]
  }

  /** bs[0] is the genesis block and bs[i] the block of height i on top of bs[i-1]; all hashes differ. */
  ghost predicate LinkedChain(hash: BlockHash, bs: seq<Block>) {
    var hs := Hashes(hash, bs);
    && |bs| > 0 && bs[0].header.height == 0
    && (forall i {:trigger LinkedAt(hs, bs, i)} | 0 < i < |bs| :: LinkedAt(hs, bs, i))
    && Distinct(hs)
  }

  /** The store after filing bs[0], bs[1], ..., bs[k] in this order. */
  function UpTo(hash: BlockHash, bs: seq<Block>, k: nat): Store
    requires k < |bs|
  {
    if k == 0 then GenesisStore(hash, bs[0]) else File(hash, UpTo(hash, bs, k - 1), bs[k])
  }

  lemma {:induction false} UpToHeight(hash: BlockHash, bs: seq<Block>, k: nat)
    requires LinkedChain(hash, bs) && k < |bs|
    ensures UpTo(hash, bs, k).currentHeight == k && UpTo(hash, bs, k).orphanBlocks == map[]
  {
    if k > 0 {
      UpToHeight(hash, bs, k - 1);
      assert LinkedAt(Hashes(hash, bs), bs, k);
    }
  }

  lemma {:induction false} UpToHashes(hash: BlockHash, bs: seq<Block>, k: nat)
    requires k < |bs|
    ensures UpTo(hash, bs, k).blocks.Keys == SetOf(Hashes(hash, bs)[..k + 1])
  {
    var hs := Hashes(hash, bs);
    if k == 0 {
      assert hs[..1] == [hs[0]];
    } else {
      UpToHashes(hash, bs, k - 1);
      assert hs[..k + 1] == hs[..k] + [hs[k]];
    }
  }

  lemma {:induction false} PrefixMembers<T>(s: seq<T>, n: nat)
    requires Distinct(s) && n <= |s|
    ensures forall i | 0 <= i < |s| :: s[i] in SetOf(s[..n]) <==> i < n
  {
  }

  /** Of a linked chain, the store holds exactly the blocks up to k. */
  lemma {:induction false} UpToContents(hash: BlockHash, bs: seq<Block>, k: nat, i: nat)
    requires LinkedChain(hash, bs) && k < |bs| && i < |bs|
    ensures Hashes(hash, bs)[i] in UpTo(hash, bs, k).blocks <==> i <= k
  {
    UpToHashes(hash, bs, k);
    PrefixMembers(Hashes(hash, bs), k + 1);
  }

  /** The pool holds exactly the delivered blocks above k, each under its parent's hash. */
  ghost predicate Waiting<K, V>(pool: map<K, V>, hs: seq<K>, bs: seq<V>, got: set<int>, k: nat)
    requires |hs| == |bs|
  {
    && (forall i | 0 <= i < |hs| :: hs[i] in pool <==> i >= k && i + 1 in got)
    && (forall i | 0 <= i < |hs| - 1 && hs[i] in pool :: pool[hs[i]] == bs[i + 1])
    && (forall h | h in pool :: h in hs)
  }

  /** Once the blocks with indexes `got` have arrived, bs[0..k] is stored, bs[k+1] is missing and the rest waits. */
  ghost predicate Frontier(hash: BlockHash, bs: seq<Block>, s: Store, got: set<int>, k: nat) {
    && k < |bs|
    && (forall i | 0 < i <= k :: i in got)
    && k + 1 !in got
    && (forall i | i in got :: 0 < i < |bs|)
    && s == UpTo(hash, bs, k).(orphanBlocks := s.orphanBlocks)
    && Waiting(s.orphanBlocks, Hashes(hash, bs), bs, got, k)
  }

  /** The end of the run of consecutive indexes in `got` that starts at k. */
  lemma {:induction false} RunEnd(got: set<int>, k: nat, n: nat) returns (m: nat)
    requires k < n && forall i | i in got :: i < n
    ensures k <= m < n && (forall i | k < i <= m :: i in got) && m + 1 !in got
    decreases n - k
  {
    if k + 1 in got {
      m := RunEnd(got, k + 1, n);
    } else {
      m := k;
    }
  }

  lemma {:induction false} WaitingRunIsMaximal<K, V>(pool: map<K, V>, hs: seq<K>, bs: seq<V>, got: set<int>, j: nat, m: nat)
    requires |hs| == |bs| && Distinct(hs) && j <= m < |bs|
    requires Waiting(pool, hs, bs, got, j)
    requires (forall i | j < i <= m :: i in got) && m + 1 !in got
    ensures MaximalRun(pool, hs[j..m + 1], bs[j + 1..m + 1])
  {
  }

  lemma {:induction false} KeysOfSegment(hash: BlockHash, bs: seq<Block>, j: nat, m: nat)
    requires j <= m < |bs|
    ensures Keys(hash, Hashes(hash, bs)[j], bs[j + 1..m + 1]) == Hashes(hash, bs)[j..m + 1]
  {
  }

  /** The blocks released by bs[j] are bs[j+1..m], where m ends the run of delivered blocks. */
  lemma {:induction false} ReleasedSegment(hash: BlockHash, bs: seq<Block>, pool: map<Hash, Block>, got: set<int>, j: nat, m: nat)
    requires LinkedChain(hash, bs) && j <= m < |bs|
    requires Waiting(pool, Hashes(hash, bs), bs, got, j)
    requires (forall i | j < i <= m :: i in got) && m + 1 !in got
    ensures OrphanChain(hash, pool, hash(bs[j])) == bs[j + 1..m + 1]
  {
    KeysOfSegment(hash, bs, j, m);
    WaitingRunIsMaximal(pool, Hashes(hash, bs), bs, got, j, m);
    DrainIsExact(hash, pool, hash(bs[j]), bs[j + 1..m + 1]);
  }

  // ---- one delivery --------------------------------------------------------------------------

  lemma {:induction false} NextHeight(k: nat)
    requires k < U64
    ensures Wrap64(k + 1) == if k + 1 == U64 then 0 else k + 1
  {
  }

  /** With bs[0..k] stored, the parent of bs[i] is missing exactly when bs[i] is not the next block or an older one. */
  lemma {:induction false} AtFrontier(hash: BlockHash, bs: seq<Block>, s: Store, k: nat, i: nat)
    requires LinkedChain(hash, bs) && k < |bs| && 0 < i < |bs|
    requires s == UpTo(hash, bs, k).(orphanBlocks := s.orphanBlocks)
    ensures bs[i].header.height == i && s.currentHeight == k
    ensures bs[i].header.prevBlockHash == Hashes(hash, bs)[i - 1]
    ensures ParentMissing(s.blocks, bs[i]) <==> i > k + 1
    ensures Wrap64(k + 1) == if k + 1 == U64 then 0 else k + 1
  {
    UpToHeight(hash, bs, k);
    NextHeight(s.currentHeight);
    assert LinkedAt(Hashes(hash, bs), bs, i);
    UpToContents(hash, bs, k, i - 1);
  }

  /** A block at or below the frontier is refused and changes nothing. */
  lemma {:induction false} RepeatIsRefused(hash: BlockHash, bs: seq<Block>, s: Store, got: set<int>, k: nat, i: nat, now: int64)
    requires LinkedChain(hash, bs) && Frontier(hash, bs, s, got, k) && 0 < i <= k
    ensures Deliver(hash, s, bs[i], now) == s
  {
    AtFrontier(hash, bs, s, k, i);
  }

  lemma {:induction false} WaitingAfterArrival<K, V>(pool: map<K, V>, hs: seq<K>, bs: seq<V>, got: set<int>, k: nat, i: nat)
    requires |hs| == |bs| && Distinct(hs) && k < i < |bs| && Waiting(pool, hs, bs, got, k)
    ensures Waiting(pool[hs[i - 1] := bs[i]], hs, bs, got + {i}, k)
  {
  }

  /** A block above a gap joins the pool. */
  lemma {:induction false} EarlyBlockWaits(hash: BlockHash, bs: seq<Block>, s: Store, got: set<int>, k: nat, i: nat, now: int64)
    requires LinkedChain(hash, bs) && Frontier(hash, bs, s, got, k) && k + 1 < i < |bs|
    ensures Frontier(hash, bs, Deliver(hash, s, bs[i], now), got + {i}, k)
  {
    AtFrontier(hash, bs, s, k, i);
    WaitingAfterArrival(s.orphanBlocks, Hashes(hash, bs), bs, got, k, i);
  }

  lemma {:induction false} WaitingAfterRelease<K, V>(pool: map<K, V>, hs: seq<K>, bs: seq<V>, got: set<int>, j: nat, m: nat)
    requires |hs| == |bs| && Distinct(hs) && j <= m < |bs| && Waiting(pool, hs, bs, got, j)
    requires (forall i | j < i <= m :: i in got) && m + 1 !in got
    ensures Waiting(pool - SetOf(hs[j..m]), hs, bs, got, m)
  {
  }

  lemma {:induction false} FilingTheRun(hash: BlockHash, bs: seq<Block>, pool: map<Hash, Block>, j: nat, m: nat)
    requires j <= m < |bs|
    ensures FileAll(hash, UpTo(hash, bs, j).(orphanBlocks := pool), bs[j + 1..m + 1])
         == UpTo(hash, bs, m).(orphanBlocks := pool)
    decreases m
  {
    var s, run := UpTo(hash, bs, j).(orphanBlocks := pool), bs[j + 1..m + 1];
    if j < m {
      calc {
        FileAll(hash, s, run);
        File(hash, FileAll(hash, s, run[..|run| - 1]), run[|run| - 1]);
        { assert run[..|run| - 1] == bs[j + 1..m]; }
        File(hash, FileAll(hash, s, bs[j + 1..m]), bs[m]);
        { FilingTheRun(hash, bs, pool, j, m - 1); }
        File(hash, UpTo(hash, bs, m - 1).(orphanBlocks := pool), bs[m]);
        File(hash, UpTo(hash, bs, m - 1), bs[m]).(orphanBlocks := pool);
        UpTo(hash, bs, m).(orphanBlocks := pool);
      }
    }
  }

  lemma {:induction false} DrainedSegment(hash: BlockHash, bs: seq<Block>, pool: map<Hash, Block>, j: nat, m: nat)
    requires j <= m < |bs| && OrphanChain(hash, pool, hash(bs[j])) == bs[j + 1..m + 1]
    ensures Drained(hash, pool, hash(bs[j])) == pool - SetOf(Hashes(hash, bs)[j..m])
  {
    var hs := Hashes(hash, bs);
    KeysOfSegment(hash, bs, j, m);
    assert hs[j] == hash(bs[j]);
    DrainedIsPoolWithoutChain(hash, pool, hs[j]);
    assert hs[j..m + 1][..m - j] == hs[j..m];
  }

  lemma {:induction false} PoolAfterRun(hash: BlockHash, bs: seq<Block>, pool: map<Hash, Block>, got: set<int>, j: nat, m: nat)
    requires LinkedChain(hash, bs) && j <= m < |bs|
    requires Waiting(pool, Hashes(hash, bs), bs, got, j)
    requires (forall i | j < i <= m :: i in got) && m + 1 !in got
    ensures Waiting(Drained(hash, pool, hash(bs[j])), Hashes(hash, bs), bs, got, m)
  {
    ReleasedSegment(hash, bs, pool, got, j, m);
    DrainedSegment(hash, bs, pool, j, m);
    WaitingAfterRelease(pool, Hashes(hash, bs), bs, got, j, m);
  }

  /** What filing the missing block bs[j] and draining the pool does to the store of bs[0..j-1]. */
  lemma {:induction false} DrainAdvances(hash: BlockHash, bs: seq<Block>, s: Store, got: set<int>, j: nat, m: nat)
    requires LinkedChain(hash, bs) && 0 < j <= m < |bs|
    requires s == UpTo(hash, bs, j - 1).(orphanBlocks := s.orphanBlocks)
    requires Waiting(s.orphanBlocks, Hashes(hash, bs), bs, got, j)
    requires (forall i | j < i <= m :: i in got) && m + 1 !in got
    ensures var s' := FileAndDrain(hash, s, bs[j]);
            s' == UpTo(hash, bs, m).(orphanBlocks := s'.orphanBlocks)
            && Waiting(s'.orphanBlocks, Hashes(hash, bs), bs, got, m)
  {
    ReleasedSegment(hash, bs, s.orphanBlocks, got, j, m);
    FilingTheRun(hash, bs, s.orphanBlocks, j, m);
    PoolAfterRun(hash, bs, s.orphanBlocks, got, j, m);
  }

  lemma {:induction false} WaitingForNext<K, V>(pool: map<K, V>, hs: seq<K>, bs: seq<V>, got: set<int>, k: nat)
    requires |hs| == |bs| && Waiting(pool, hs, bs, got, k) && k + 1 !in got
    ensures Waiting(pool, hs, bs, got + {k + 1}, k + 1)
  {
  }

  /** The missing block moves the frontier to the end of the run of delivered blocks. */
  lemma {:induction false} NextBlockAdvances(hash: BlockHash, bs: seq<Block>, s: Store, got: set<int>, k: nat, now: int64) returns (m: nat)
    requires LinkedChain(hash, bs) && Frontier(hash, bs, s, got, k) && k + 1 < |bs| && WellFormed(bs[k + 1], now)
    ensures Frontier(hash, bs, Deliver(hash, s, bs[k + 1], now), got + {k + 1}, m)
  {
    var got', j := got + {k + 1}, k + 1;
    m := RunEnd(got', j, |bs|);
    assert Deliver(hash, s, bs[j], now) == FileAndDrain(hash, s, bs[j]) by {
      AtFrontier(hash, bs, s, k, j);
    }
    WaitingForNext(s.orphanBlocks, Hashes(hash, bs), bs, got, k);
    DrainAdvances(hash, bs, s, got', j, m);
  }

  lemma {:induction false} DeliveryKeepsFrontier(hash: BlockHash, bs: seq<Block>, s: Store, got: set<int>, k: nat, i: nat, now: int64)
    returns (m: nat)
    requires LinkedChain(hash, bs) && Frontier(hash, bs, s, got, k) && 0 < i < |bs| && WellFormed(bs[i], now)
    ensures Frontier(hash, bs, Deliver(hash, s, bs[i], now), got + {i}, m)
  {
    m := k;
    if i <= k {
      RepeatIsRefused(hash, bs, s, got, k, i, now);
      assert got + {i} == got;
    } else if i == k + 1 {
      m := NextBlockAdvances(hash, bs, s, got, k, now);
    } else {
      EarlyBlockWaits(hash, bs, s, got, k, i, now);
    }
  }

  // ---- all orders ----------------------------------------------------------------------------

  ghost predicate HasArrived(bs: seq<Block>, ds: seq<Delivery>, i: int)
    requires 0 <= i < |bs|
  {
    exists d :: d in ds && d.block == bs[i]
  }

  ghost predicate OnChain(bs: seq<Block>, b: Block) {
    exists i :: 0 < i < |bs| && b == bs[i]
  }

  ghost function Arrived(bs: seq<Block>, ds: seq<Delivery>): set<int> {
    set i | 0 < i < |bs| && HasArrived(bs, ds, i)
  }

  /** Every delivery brings a valid block of the chain other than genesis. */
  ghost predicate DeliversChain(bs: seq<Block>, ds: seq<Delivery>) {
    forall d | d in ds :: WellFormed(d.block, d.now) && OnChain(bs, d.block)
  }

  lemma {:induction false} ArrivedOneMore(hash: BlockHash, bs: seq<Block>, ds: seq<Delivery>, d: Delivery, i: nat)
    requires LinkedChain(hash, bs) && 0 < i < |bs| && d.block == bs[i]
    ensures Arrived(bs, ds + [d]) == Arrived(bs, ds) + {i}
  {
    var hs := Hashes(hash, bs);
    forall j | 0 < j < |bs| ensures HasArrived(bs, ds + [d], j) <==> HasArrived(bs, ds, j) || j == i {
      assert hs[i] == hash(bs[i]) && hs[j] == hash(bs[j]);
      assert d in ds + [d];
    }
  }

  lemma {:induction false} RunHasFrontier(hash: BlockHash, bs: seq<Block>, ds: seq<Delivery>) returns (k: nat)
    requires LinkedChain(hash, bs) && DeliversChain(bs, ds)
    ensures Frontier(hash, bs, Run(hash, GenesisStore(hash, bs[0]), ds), Arrived(bs, ds), k)
  {
    if ds == [] {
      k := 0;
    } else {
      var front, d := ds[..|ds| - 1], ds[|ds| - 1];
      k := RunHasFrontier(hash, bs, front);
      assert d in ds && OnChain(bs, d.block);
      var i :| 0 < i < |bs| && d.block == bs[i];
      ArrivedOneMore(hash, bs, front, d, i);
      assert front + [d] == ds;
      k := DeliveryKeepsFrontier(hash, bs, Run(hash, GenesisStore(hash, bs[0]), front), Arrived(bs, front), k, i, d.now);
    }
  }

  lemma {:induction false} NobodyWaits<K, V>(pool: map<K, V>, hs: seq<K>, bs: seq<V>, got: set<int>, k: nat)
    requires |hs| == |bs| == k + 1 && Waiting(pool, hs, bs, got, k) && k + 1 !in got
    ensures pool == map[]
  {
  }

  lemma {:induction false} CompleteFrontier(hash: BlockHash, bs: seq<Block>, s: Store, got: set<int>, k: nat)
    requires LinkedChain(hash, bs) && Frontier(hash, bs, s, got, k) && forall i | 0 < i < |bs| :: i in got
    ensures s == UpTo(hash, bs, |bs| - 1)
  {
    assert k + 1 == |bs|;
    NobodyWaits(s.orphanBlocks, Hashes(hash, bs), bs, got, k);
    UpToHeight(hash, bs, k);
  }

  /**
   * Whatever the order and however often blocks are repeated, once every block of a linked chain of valid blocks has
   * been delivered the store is the one that files the chain in order, and no orphan is left.
   */
  lemma {:induction false} DeliveryOrderConfluence(hash: BlockHash, bs: seq<Block>, ds: seq<Delivery>)
    requires LinkedChain(hash, bs) && DeliversChain(bs, ds)
    requires forall i | 0 < i < |bs| :: HasArrived(bs, ds, i)
    ensures var s := Run(hash, GenesisStore(hash, bs[0]), ds);
            s == UpTo(hash, bs, |bs| - 1) && s.orphanBlocks == map[] && s.currentHeight == |bs| - 1
  {
    var k := RunHasFrontier(hash, bs, ds);
    CompleteFrontier(hash, bs, Run(hash, GenesisStore(hash, bs[0]), ds), Arrived(bs, ds), k);
    UpToHeight(hash, bs, k);
  }

  lemma {:induction false} LaterRivalWins(hash: BlockHash, genesis: Block, parent: Block, b: Block, c: Block, now: int64)
    requires LinkedChain(hash, [genesis, parent, b]) && LinkedChain(hash, [genesis, parent, c])
    requires WellFormed(parent, now)
    ensures var ds := [Delivery(b, now), Delivery(c, now), Delivery(parent, now)];
            Run(hash, GenesisStore(hash, genesis), ds).blocks.Keys == {hash(genesis), hash(parent), hash(c)}
  {
    var g, p := hash(genesis), hash(parent);
    RivalFacts(hash, genesis, parent, b);
    RivalFacts(hash, genesis, parent, c);
    var s0 := GenesisStore(hash, genesis);
    var one, two := [Delivery(b, now)], [Delivery(b, now), Delivery(c, now)];
    var three := two + [Delivery(parent, now)];
    assert one[..0] == [] && two[..1] == one && three[..2] == two;
    assert Run(hash, s0, one) == Deliver(hash, Run(hash, s0, []), b, now);
    assert Run(hash, s0, one) == s0.(orphanBlocks := map[p := b]);
    assert Run(hash, s0, two) == s0.(orphanBlocks := map[p := c]);
    var waiting := File(hash, s0.(orphanBlocks := map[p := c]), parent);
    assert Run(hash, s0, three) == Release(hash, waiting, p);
    ReleaseOne(hash, waiting, p);
    assert waiting.orphanBlocks - {p} == map[];
    assert Run(hash, s0, three) == File(hash, waiting.(orphanBlocks := map[]), c);
    assert three == [Delivery(b, now), Delivery(c, now), Delivery(parent, now)];
  }

  lemma {:induction false} RivalFacts(hash: BlockHash, genesis: Block, parent: Block, b: Block)
    requires LinkedChain(hash, [genesis, parent, b])
    ensures genesis.header.height == 0 && parent.header.height == 1 && b.header.height == 2
    ensures parent.header.prevBlockHash == hash(genesis) && b.header.prevBlockHash == hash(parent)
    ensures hash(genesis) != hash(parent) && hash(parent) != hash(b)
    ensures hash(genesis) != hash(b)
  {
    var bs := [genesis, parent, b];
    var hs := Hashes(hash, bs);
    assert LinkedAt(hs, bs, 1) && LinkedAt(hs, bs, 2);
    assert hs[0] != hs[1] && hs[1] != hs[2] && hs[0] != hs[2];
  }

  /**
   * Off a single chain the order does show: of two rival children of a missing parent the pool keeps only the one
   * delivered last, and the other is lost.
   */
  lemma {:induction false} RivalOrphansDoNotCommute(hash: BlockHash, genesis: Block, parent: Block, b: Block, c: Block, now: int64)
    requires LinkedChain(hash, [genesis, parent, b]) && LinkedChain(hash, [genesis, parent, c])
    requires hash(b) != hash(c) && WellFormed(parent, now)
    ensures var s, x, y, z := GenesisStore(hash, genesis), Delivery(b, now), Delivery(c, now), Delivery(parent, now);
            hash(b) !in Run(hash, s, [x, y, z]).blocks && hash(b) in Run(hash, s, [y, x, z]).blocks
  {
    LaterRivalWins(hash, genesis, parent, b, c, now);
    LaterRivalWins(hash, genesis, parent, c, b, now);
    RivalFacts(hash, genesis, parent, b);
  }
}
