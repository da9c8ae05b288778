/** The blockchain object: its maps, its height, and the mutually recursive insertion and drain. */
module BlockStore {
  import opened Types
  import opened Blocks
  import opened Chain

  /** The store before any block is filed, and right after the genesis block is. */
  const EMPTY_STORE := Store(map[], map[], 0, map[])

  function GenesisStore(hash: BlockHash, genesis: Block): Store {
    File(hash, EMPTY_STORE, genesis)
  }

  class Blockchain {
    const H: HashFn
    var blocks: map<Hash, Block>
    var heightToHash: map<uint64, Hash>
    var currentHeight: uint64
    var orphanBlocks: map<Hash, Block>
    var genesis: Block

    function State(): Store
      reads this
    {
      Store(blocks, heightToHash, currentHeight, orphanBlocks)
    }

    function BlockName(): BlockHash {
      HeaderHash(H)
    }

    constructor (H: HashFn, now: int64)
      ensures this.H == H && genesis == GenesisBlock(H, now)
      ensures State() == GenesisStore(BlockName(), genesis)
      ensures blocks == map[H(Encode(genesis.header)) := genesis] && heightToHash == map[0 := H(Encode(genesis.header))]
      ensures currentHeight == 0 && orphanBlocks == map[] && genesis.header.height == 0 && genesis.transactions == []
      ensures WellFormed(genesis, now) <==> now < I63 - 300
    {
      this.H := H;
      blocks, heightToHash, currentHeight, orphanBlocks := map[], map[], 0, map[];
      genesis := GenesisBlock(H, now);
      new;
      hide WellFormed, Encode, Drained, OrphanChain;
      GenesisIsWellFormed(H, now);
      var _ := addBlock(genesis);
    }

    /** Deliver a block: it is stored together with the orphans it releases, kept as an orphan, or refused. */
    method AddBlock(block: Block, now: int64) returns (err: Option<Error>)
      modifies `blocks, `heightToHash, `currentHeight, `orphanBlocks
      ensures State() == Deliver(BlockName(), old(State()), block, now)
      ensures err == DeliveryError(old(State()), block, now)
      ensures err == None <==> Accepts(old(State()), block, now)
      ensures err == None ==>
                && block.header.version != 0 && block.header.difficulty != 0
                && block.header.timestamp <= (if now + 300 < I63 then now + 300 else now + 300 - U64)
                && (forall tx | tx in block.transactions ::
                      Nonzero(tx.id) && Nonzero(tx.from) && Nonzero(tx.to) && tx.signature != [])
                && block.header.height == (old(currentHeight) + 1) % U64
                && (block.header.height > 0 ==> block.header.prevBlockHash in old(blocks))
      ensures err.Some? ==>
                match err.value
                case PreviousBlockNotFound => block.header.height > 0 && block.header.prevBlockHash !in old(blocks)
                case InvalidHeight(expected, got) =>
                  expected == (old(currentHeight) + 1) % U64 && got == block.header.height != expected
                case other => HasFault(block, now, other)
    {
      hide WellFormed, HasFields, Nonzero, HeaderError, TransactionsError, FileAndDrain;
      WellFormedMeans(block, now);
      ErrorsNameFaults(block, now);
      err := validateBlock(block, now);
      if err != None {
        return;
      }
      var expectedHeight := Wrap64(currentHeight + 1);
      if block.header.height != expectedHeight {
        return Some(InvalidHeight(expectedHeight, block.header.height));
      }
      err := addBlock(block);
    }

    method validateBlock(block: Block, now: int64) returns (err: Option<Error>)
      modifies `orphanBlocks
      ensures err == ValidationError(blocks, block, now)
      ensures err == None <==> !ParentMissing(blocks, block) && WellFormed(block, now)
      ensures orphanBlocks == if ParentMissing(blocks, block)
                              then old(orphanBlocks)[block.header.prevBlockHash := block] else old(orphanBlocks)
    {
      FirstBadTransaction(block.transactions);
      if block.header.height > 0 {
        if block.header.prevBlockHash !in blocks {
          orphanBlocks := orphanBlocks[block.header.prevBlockHash := block];
          return Some(PreviousBlockNotFound);
        }
      }
      err := validateBlockHeader(block.header, now);
      if err != None {
        return;
      }
      err := validateTransactions(block.transactions);
    }

    method validateBlockHeader(header: BlockHeader, now: int64) returns (err: Option<Error>)
      ensures err == HeaderError(header, now)
    {
      if header.version == 0 {
        return Some(InvalidVersion);
      }
      if header.timestamp > WrapInt64(now + 300) {
        return Some(TimestampTooFarInFuture);
      }
      if header.difficulty == 0 {
        return Some(InvalidDifficulty);
      }
      err := None;
    }

    method validateTransaction(tx: Transaction) returns (err: Option<Error>)
      ensures err == TransactionError(tx)
    {
      if tx.id == ZERO_HASH {
        return Some(InvalidTransactionID);
      }
      if tx.from == ZERO_ADDRESS || tx.to == ZERO_ADDRESS {
        return Some(InvalidAddresses);
      }
      if |tx.signature| == 0 {
        return Some(MissingSignature);
      }
      err := None;
    }

    method validateTransactions(txs: seq<Transaction>) returns (err: Option<Error>)
      ensures err == TransactionsError(txs)
    {
      for i := 0 to |txs|
        invariant TransactionsError(txs[..i]) == None
      {
        assert txs[..i + 1][..i] == txs[..i];
        err := validateTransaction(txs[i]);
        if err != None {
          FirstErrorStays(txs, i + 1);
          return;
        }
      }
      assert txs[..|txs|] == txs;
      err := None;
    }

    /** Store a validated block and whatever it releases; the pool shrinks by exactly the chain released. */
    method addBlock(block: Block) returns (err: Option<Error>)
      modifies `blocks, `heightToHash, `currentHeight, `orphanBlocks
      ensures err == None
      ensures State() == FileAndDrain(BlockName(), old(State()), block)
      ensures BlockName()(block) !in orphanBlocks && orphanBlocks.Keys <= old(orphanBlocks).Keys
      decreases orphanBlocks.Keys, 1
    {
      var blockHash := HashHeader(H, block.header);
      blocks := blocks[blockHash := block];
      heightToHash := heightToHash[block.header.height := blockHash];
      if block.header.height > currentHeight {
        currentHeight := block.header.height;
      }
      processOrphanBlocks(blockHash);
      err := None;
    }

    /** Release the orphans hanging from parentHash; the second recursive call finds nothing left to do. */
    method processOrphanBlocks(parentHash: Hash)
      modifies `blocks, `heightToHash, `currentHeight, `orphanBlocks
      ensures State() == Release(BlockName(), old(State()), parentHash)
      ensures parentHash !in orphanBlocks && orphanBlocks.Keys <= old(orphanBlocks).Keys
      decreases orphanBlocks.Keys, 0
    {
      if parentHash in orphanBlocks {
        ReleaseOne(BlockName(), State(), parentHash);
        var orphan := orphanBlocks[parentHash];
        orphanBlocks := orphanBlocks - {parentHash};
        var err := addBlock(orphan);
        if err == None {
          var orphanHash := HashHeader(H, orphan.header);
          ghost var settled := State();
          processOrphanBlocks(orphanHash);
          assert State() == settled;
        }
      }
    }

    method GetBlock(hash: Hash) returns (block: Option<Block>)
      ensures block == if hash in blocks then Some(blocks[hash]) else None
    {
      block := if hash in blocks then Some(blocks[hash]) else None;
    }

    /** The inner None is the nil block a height entry without a stored block would give. */
    method GetBlockByHeight(height: uint64) returns (block: Option<Option<Block>>)
      ensures block.None? <==> height !in heightToHash
      ensures block.Some? && block.value.Some? ==>
                heightToHash[height] in blocks && block.value.value == blocks[heightToHash[height]]
      ensures block.Some? && block.value.None? ==> heightToHash[height] !in blocks
    {
      if height !in heightToHash {
        return None;
      }
      var found := GetBlock(heightToHash[height]);
      block := Some(found);
    }
  }
}
