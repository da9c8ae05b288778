/** The block store and its orphan pool: what one delivery does. */
module Chain {
  import opened Types
  import opened Blocks

  /** The maps and the height of a Blockchain, as a value. */
  datatype Store = Store(
    blocks: map<Hash, Block>, heightToHash: map<uint64, Hash>, currentHeight: uint64, orphanBlocks: map<Hash, Block>)

  datatype Error =
    | PreviousBlockNotFound
    | InvalidVersion
    | TimestampTooFarInFuture
    | InvalidDifficulty
    | InvalidTransactionID
    | InvalidAddresses
    | MissingSignature
    | InvalidHeight(expected: uint64, got: uint64)

  // ---- validation ----------------------------------------------------------------------------

  function HeaderError(h: BlockHeader, now: int64): Option<Error> {
    if h.version == 0 then Some(InvalidVersion)
    else if h.timestamp > WrapInt64(now + 300) then Some(TimestampTooFarInFuture)
    else if h.difficulty == 0 then Some(InvalidDifficulty)
    else None
  }

  function TransactionError(tx: Transaction): Option<Error> {
    if tx.id == ZERO_HASH then Some(InvalidTransactionID)
    else if tx.from == ZERO_ADDRESS || tx.to == ZERO_ADDRESS then Some(InvalidAddresses)
    else if |tx.signature| == 0 then Some(MissingSignature)
    else None
  }

  /** The error of the first transaction that has one. */
  function TransactionsError(txs: seq<Transaction>): Option<Error> {
    if txs == [] then None
    else
      var earlier := TransactionsError(txs[..|txs| - 1]);
      if earlier != None then earlier else TransactionError(txs[|txs| - 1])
  }

  lemma {:induction false} FirstErrorStays(txs: seq<Transaction>, k: nat)
    requires k <= |txs| && TransactionsError(txs[..k]) != None
    ensures TransactionsError(txs) == TransactionsError(txs[..k])
  {
    if k == |txs| {
      assert txs[..k] == txs;
    } else {
      assert txs[..|txs| - 1][..k] == txs[..k];
      FirstErrorStays(txs[..|txs| - 1], k);
    }
  }

  lemma {:induction false} FirstBadTransaction(txs: seq<Transaction>)
    ensures TransactionsError(txs) == None <==> forall tx | tx in txs :: TransactionError(tx) == None
    ensures TransactionsError(txs) != None ==>
              exists i | 0 <= i < |txs| ::
                TransactionError(txs[i]) == TransactionsError(txs) && forall j | 0 <= j < i :: TransactionError(txs[j]) == None
  {
    if txs != [] {
      var front := txs[..|txs| - 1];
      FirstBadTransaction(front);
      assert txs == front + [txs[|txs| - 1]];
    }
  }

  /** Whether the header and every transaction of the block pass validation at time `now`. */
  predicate WellFormed(b: Block, now: int64) {
    HeaderError(b.header, now) == None && forall tx | tx in b.transactions :: TransactionError(tx) == None
  }

  predicate ParentMissing(blocks: map<Hash, Block>, b: Block) {
    b.header.height > 0 && b.header.prevBlockHash !in blocks
  }

  ghost predicate Nonzero(bytes: seq<byte>) {
    exists i :: 0 <= i < |bytes| && bytes[i] != 0
  }

  lemma {:induction false} ZeroValues(hash: Hash, address: Address)
    ensures hash != ZERO_HASH <==> Nonzero(hash)
    ensures address != ZERO_ADDRESS <==> Nonzero(address)
  {
  }

  /** What a block must have at any time: a version, a difficulty, and identified, addressed and signed transactions. */
  ghost predicate HasFields(b: Block) {
    && b.header.version != 0 && b.header.difficulty != 0
    && forall tx | tx in b.transactions ::
         Nonzero(tx.id) && Nonzero(tx.from) && Nonzero(tx.to) && tx.signature != []
  }

  /** A block is well-formed if it has its fields and is not dated more than 300 seconds ahead, in 64 bits. */
  lemma {:induction false} WellFormedMeans(b: Block, now: int64)
    ensures WellFormed(b, now) ==> HasFields(b)
    ensures WellFormed(b, now) <==>
              && b.header.version != 0 && b.header.difficulty != 0
              && b.header.timestamp <= (if now + 300 < I63 then now + 300 else now + 300 - U64)
              && forall tx | tx in b.transactions ::
                   Nonzero(tx.id) && Nonzero(tx.from) && Nonzero(tx.to) && tx.signature != []
  {
    hide Nonzero;
    forall tx | tx in b.transactions
      ensures TransactionError(tx) == None <==> Nonzero(tx.id) && Nonzero(tx.from) && Nonzero(tx.to) && tx.signature != []
    {
      ZeroValues(tx.id, tx.from);
      ZeroValues(tx.id, tx.to);
    }
  }

  /** Each error of validation names a fault that the block has. */
  ghost predicate HasFault(b: Block, now: int64, error: Error) {
    match error
    case InvalidVersion => b.header.version == 0
    case TimestampTooFarInFuture => b.header.timestamp > (if now + 300 < I63 then now + 300 else now + 300 - U64)
    case InvalidDifficulty => b.header.difficulty == 0
    case InvalidTransactionID => exists tx :: tx in b.transactions && !Nonzero(tx.id)
    case InvalidAddresses => exists tx :: tx in b.transactions && (!Nonzero(tx.from) || !Nonzero(tx.to))
    case MissingSignature => exists tx :: tx in b.transactions && tx.signature == []
    case _ => false
  }

  lemma {:induction false} ErrorsNameFaults(b: Block, now: int64)
    ensures HeaderError(b.header, now) != None ==> HasFault(b, now, HeaderError(b.header, now).value)
    ensures TransactionsError(b.transactions) != None ==> HasFault(b, now, TransactionsError(b.transactions).value)
  {
    hide Nonzero, TransactionsError;
    FirstBadTransaction(b.transactions);
    if TransactionsError(b.transactions) != None {
      var i :| 0 <= i < |b.transactions| && TransactionError(b.transactions[i]) == TransactionsError(b.transactions);
      var tx := b.transactions[i];
      assert tx in b.transactions;
      ZeroValues(tx.id, tx.from);
      ZeroValues(tx.id, tx.to);
    }
  }

  /** Until the clock nears its limit, a valid block stays valid, and one refused only for its time turns valid 300 s before it. */
  lemma {:induction false} ValidFromThenOn(b: Block, now: int64, later: int64)
    requires now <= later < I63 - 300
    ensures WellFormed(b, now) ==> WellFormed(b, later)
    ensures WellFormed(b, later) ==> (WellFormed(b, now) <==> now >= b.header.timestamp - 300)
  {
  }

  /** At the limit the addition wraps, and a valid block becomes invalid: exactly unless its time is the earliest there is. */
  lemma {:induction false} ValidForever(b: Block, now: int64)
    requires WellFormed(b, now) && now < I63 - 300
    ensures (forall later: int64 | now <= later :: WellFormed(b, later)) <==> b.header.timestamp == -I63
  {
    if forall later: int64 | now <= later :: WellFormed(b, later) {
      assert WellFormed(b, I63 - 300) && WrapInt64(I63 - 300 + 300) == -I63;
    }
  }

  function ValidationError(blocks: map<Hash, Block>, b: Block, now: int64): Option<Error> {
    if ParentMissing(blocks, b) then Some(PreviousBlockNotFound)
    else if HeaderError(b.header, now) != None then HeaderError(b.header, now)
    else TransactionsError(b.transactions)
  }

  // ---- the orphan chain ----------------------------------------------------------------------

  /** The orphans that hang from h, parent before child, each taken out of the pool as it is met. */
  function OrphanChain(hash: BlockHash, pool: map<Hash, Block>, h: Hash): seq<Block>
    decreases |pool|
  {
    if h in pool then [pool[h]] + OrphanChain(hash, pool - {h}, hash(pool[h])) else []
  }

  /** The pool that is left once OrphanChain has been taken out. */
  function Drained(hash: BlockHash, pool: map<Hash, Block>, h: Hash): map<Hash, Block>
    decreases |pool|
  {
    if h in pool then Drained(hash, pool - {h}, hash(pool[h])) else pool
  }

  /** The hashes a chain hanging from h is looked up by: h, then the hash of each block in turn. */
  function Keys(hash: BlockHash, h: Hash, c: seq<Block>): seq<Hash> {
    [h] + seq(|c|, i requires 0 <= i < |c| => hash(c[i]))
  }

  /** The pool keys of a chain hanging from h. */
  ghost function ParentKeys(hash: BlockHash, h: Hash, c: seq<Block>): set<Hash> {
    SetOf(Keys(hash, h, c)[..|c|])
  }

  /** The entries c filed under keys[0..|c|] are all different ones, and the last key leads to no further entry. */
  ghost predicate MaximalRun<K, V>(pool: map<K, V>, keys: seq<K>, c: seq<V>)
    requires |keys| == |c| + 1
  {
    && (forall i | 0 <= i < |c| :: keys[i] in pool && pool[keys[i]] == c[i])
    && (forall i, j | 0 <= i < j < |c| :: keys[i] != keys[j])
    && (keys[|c|] in pool ==> keys[|c|] in keys[..|c|])
  }

  /** c is a chain of pool entries hanging from h that uses no entry twice and cannot be extended. */
  ghost predicate IsMaximalOrphanChain(hash: BlockHash, pool: map<Hash, Block>, h: Hash, c: seq<Block>) {
    MaximalRun(pool, Keys(hash, h, c), c)
  }

  lemma {:induction false} KeysUnfold(hash: BlockHash, h: Hash, c: seq<Block>)
    requires c != []
    ensures Keys(hash, h, c) == [h] + Keys(hash, hash(c[0]), c[1..])
    ensures ParentKeys(hash, h, c) == {h} + ParentKeys(hash, hash(c[0]), c[1..])
  {
    var keys, tailKeys := Keys(hash, h, c), Keys(hash, hash(c[0]), c[1..]);
    assert keys == [h] + tailKeys;
    assert keys[..|c|] == [h] + tailKeys[..|c| - 1];
  }

  lemma {:induction false} MaximalRunTail<K, V>(pool: map<K, V>, keys: seq<K>, c: seq<V>)
    requires |keys| == |c| + 1 && c != [] && MaximalRun(pool, keys, c)
    ensures keys[0] in pool && c[0] == pool[keys[0]] && MaximalRun(pool - {keys[0]}, keys[1..], c[1..])
  {
  }

  lemma {:induction false} MaximalRunCons<K, V>(pool: map<K, V>, keys: seq<K>, c: seq<V>)
    requires |keys| == |c| + 1 && c != [] && keys[0] in pool && c[0] == pool[keys[0]]
    requires MaximalRun(pool - {keys[0]}, keys[1..], c[1..])
    ensures MaximalRun(pool, keys, c)
  {
  }

  lemma {:induction false} OrphanChainUnfold(hash: BlockHash, pool: map<Hash, Block>, h: Hash)
    ensures h !in pool ==> OrphanChain(hash, pool, h) == []
    ensures h in pool ==> OrphanChain(hash, pool, h) == [pool[h]] + OrphanChain(hash, pool - {h}, hash(pool[h]))
  {
  }

  lemma {:induction false} OrphanChainIsMaximal(hash: BlockHash, pool: map<Hash, Block>, h: Hash)
    ensures IsMaximalOrphanChain(hash, pool, h, OrphanChain(hash, pool, h))
    decreases |pool|
  {
    var c := OrphanChain(hash, pool, h);
    if h in pool {
      OrphanChainIsMaximal(hash, pool - {h}, hash(pool[h]));
      assert c[1..] == OrphanChain(hash, pool - {h}, hash(pool[h]));
      KeysUnfold(hash, h, c);
      assert Keys(hash, h, c)[1..] == Keys(hash, hash(c[0]), c[1..]);
      MaximalRunCons(pool, Keys(hash, h, c), c);
    }
  }

  /** What the drain takes out: exactly the entries of the chain. */
  lemma {:induction false} DrainedIsPoolWithoutChain(hash: BlockHash, pool: map<Hash, Block>, h: Hash)
    ensures Drained(hash, pool, h) == pool - ParentKeys(hash, h, OrphanChain(hash, pool, h))
    decreases |pool|
  {
    hide OrphanChain;
    var c := OrphanChain(hash, pool, h);
    OrphanChainUnfold(hash, pool, h);
    if h in pool {
      DrainedIsPoolWithoutChain(hash, pool - {h}, hash(pool[h]));
      assert c[1..] == OrphanChain(hash, pool - {h}, hash(pool[h]));
      KeysUnfold(hash, h, c);
    } else {
      assert ParentKeys(hash, h, c) == {};
    }
  }

  lemma {:induction false} EmptyRun<K, V>(pool: map<K, V>, keys: seq<K>)
    requires |keys| == 1 && MaximalRun(pool, keys, [])
    ensures keys[0] !in pool
  {
  }

  /** There is only one maximal chain. */
  lemma {:induction false} MaximalOrphanChainIsUnique(hash: BlockHash, pool: map<Hash, Block>, h: Hash, c: seq<Block>)
    requires IsMaximalOrphanChain(hash, pool, h, c)
    ensures c == OrphanChain(hash, pool, h)
    decreases |pool|
  {
    hide MaximalRun, ParentKeys, OrphanChain;
    var keys := Keys(hash, h, c);
    OrphanChainUnfold(hash, pool, h);
    if c == [] {
      EmptyRun(pool, keys);
    } else {
      KeysUnfold(hash, h, c);
      MaximalRunTail(pool, keys, c);
      assert keys[1..] == Keys(hash, hash(c[0]), c[1..]);
      MaximalOrphanChainIsUnique(hash, pool - {h}, hash(c[0]), c[1..]);
    }
  }

  /** The chain the drain follows is the one and only maximal orphan chain. */
  lemma {:induction false} DrainIsExact(hash: BlockHash, pool: map<Hash, Block>, h: Hash, c: seq<Block>)
    ensures IsMaximalOrphanChain(hash, pool, h, c) <==> c == OrphanChain(hash, pool, h)
  {
    OrphanChainIsMaximal(hash, pool, h);
    if IsMaximalOrphanChain(hash, pool, h, c) {
      MaximalOrphanChainIsUnique(hash, pool, h, c);
    }
  }

  // ---- filing and delivering -----------------------------------------------------------------

  /** Store one block under its hash and its height. */
  function File(hash: BlockHash, s: Store, b: Block): Store {
    s.(blocks := s.blocks[hash(b) := b],
       heightToHash := s.heightToHash[b.header.height := hash(b)],
       currentHeight := if b.header.height > s.currentHeight then b.header.height else s.currentHeight)
  }

  function FileAll(hash: BlockHash, s: Store, bs: seq<Block>): Store {
    if bs == [] then s else File(hash, FileAll(hash, s, bs[..|bs| - 1]), bs[|bs| - 1])
  }

  lemma {:induction false} FileAllConcat(hash: BlockHash, s: Store, bs: seq<Block>, cs: seq<Block>)
    ensures FileAll(hash, s, bs + cs) == FileAll(hash, FileAll(hash, s, bs), cs)
    decreases |cs|
  {
    if cs == [] {
      assert bs + cs == bs;
    } else {
      assert (bs + cs)[..|bs + cs| - 1] == bs + cs[..|cs| - 1];
      FileAllConcat(hash, s, bs, cs[..|cs| - 1]);
    }
  }

  lemma {:induction false} FileAllIgnoresPool(hash: BlockHash, s: Store, pool: map<Hash, Block>, bs: seq<Block>)
    ensures FileAll(hash, s.(orphanBlocks := pool), bs) == FileAll(hash, s, bs).(orphanBlocks := pool)
  {
    if bs != [] {
      FileAllIgnoresPool(hash, s, pool, bs[..|bs| - 1]);
    }
  }

  /** File the orphans that hang from h and take them out of the pool. */
  function Release(hash: BlockHash, s: Store, h: Hash): Store {
    FileAll(hash, s, OrphanChain(hash, s.orphanBlocks, h)).(orphanBlocks := Drained(hash, s.orphanBlocks, h))
  }

  /** Store a block and every orphan it releases. */
  function FileAndDrain(hash: BlockHash, s: Store, b: Block): Store {
    Release(hash, File(hash, s, b), hash(b))
  }

  lemma {:induction false} FileAllCons(hash: BlockHash, s: Store, b: Block, bs: seq<Block>)
    ensures FileAll(hash, s, [b] + bs) == FileAll(hash, File(hash, s, b), bs)
  {
    FileAllConcat(hash, s, [b], bs);
    assert FileAll(hash, s, [b]) == File(hash, FileAll(hash, s, [b][..0]), b);
  }

  /** One round of the drain: remove the orphan from the pool, then file it and what hangs from it. */
  lemma {:induction false} ReleaseOne(hash: BlockHash, s: Store, h: Hash)
    requires h in s.orphanBlocks
    ensures Release(hash, s, h) == FileAndDrain(hash, s.(orphanBlocks := s.orphanBlocks - {h}), s.orphanBlocks[h])
  {
    var rest, orphan := s.orphanBlocks - {h}, s.orphanBlocks[h];
    var later := OrphanChain(hash, rest, hash(orphan));
    FileAllCons(hash, s, orphan, later);
    FileAllIgnoresPool(hash, File(hash, s, orphan), rest, later);
    assert File(hash, s, orphan).(orphanBlocks := rest) == File(hash, s.(orphanBlocks := rest), orphan);
  }

  /** What delivering a block to the store leaves behind. */
  function Deliver(hash: BlockHash, s: Store, b: Block, now: int64): Store {
    if ParentMissing(s.blocks, b) then s.(orphanBlocks := s.orphanBlocks[b.header.prevBlockHash := b])
    else if !WellFormed(b, now) || b.header.height != Wrap64(s.currentHeight + 1) then s
    else FileAndDrain(hash, s, b)
  }

  predicate Accepts(s: Store, b: Block, now: int64) {
    !ParentMissing(s.blocks, b) && WellFormed(b, now) && b.header.height == Wrap64(s.currentHeight + 1)
  }

  /** Why a delivery is refused: the parent, the header, the transactions and the height are looked at in this order. */
  function DeliveryError(s: Store, b: Block, now: int64): Option<Error> {
    var error := ValidationError(s.blocks, b, now);
    var expected := Wrap64(s.currentHeight + 1);
    if error != None then error
    else if b.header.height != expected then Some(InvalidHeight(expected, b.header.height))
    else None
  }

  /** Transaction i is the first without an ID, an address or a signature. */
  ghost predicate FirstIncomplete(txs: seq<Transaction>, i: nat) {
    && i < |txs| && !(Nonzero(txs[i].id) && Nonzero(txs[i].from) && Nonzero(txs[i].to) && txs[i].signature != [])
    && forall j | 0 <= j < i ::
         Nonzero(txs[j].id) && Nonzero(txs[j].from) && Nonzero(txs[j].to) && txs[j].signature != []
  }

  lemma {:induction false} FirstIncompleteIsReported(txs: seq<Transaction>)
    ensures TransactionsError(txs) == None <==> forall i: nat :: !FirstIncomplete(txs, i)
    ensures forall i: nat | FirstIncomplete(txs, i) ::
              TransactionsError(txs) == Some(if !Nonzero(txs[i].id) then InvalidTransactionID
                                             else if !Nonzero(txs[i].from) || !Nonzero(txs[i].to) then InvalidAddresses
                                             else MissingSignature)
  {
    hide Nonzero, TransactionsError;
    FirstBadTransaction(txs);
    forall tx | tx in txs
      ensures TransactionError(tx) == None <==> Nonzero(tx.id) && Nonzero(tx.from) && Nonzero(tx.to) && tx.signature != []
      ensures tx.id != ZERO_HASH <==> Nonzero(tx.id)
      ensures tx.from != ZERO_ADDRESS <==> Nonzero(tx.from)
      ensures tx.to != ZERO_ADDRESS <==> Nonzero(tx.to)
    {
      ZeroValues(tx.id, tx.from);
      ZeroValues(tx.id, tx.to);
    }
    if TransactionsError(txs) != None {
      var i :| 0 <= i < |txs| && TransactionError(txs[i]) == TransactionsError(txs)
               && forall j | 0 <= j < i :: TransactionError(txs[j]) == None;
      assert txs[i] in txs && FirstIncomplete(txs, i);
      assert forall k: nat | FirstIncomplete(txs, k) :: txs[k] in txs && k == i;
    }
  }

  /** Which obstacle is reported: the first in the order parent, version, time, difficulty, transactions, height. */
  lemma {:induction false} FirstObstacle(s: Store, b: Block, now: int64)
    ensures var e, h, txs := DeliveryError(s, b, now), b.header, b.transactions;
            var parented := h.height == 0 || h.prevBlockHash in s.blocks;
            var timely := h.timestamp <= (if now + 300 < I63 then now + 300 else now + 300 - U64);
            var sound := parented && h.version != 0 && timely && h.difficulty != 0;
            && (e == Some(PreviousBlockNotFound) <==> !parented)
            && (e == Some(InvalidVersion) <==> parented && h.version == 0)
            && (e == Some(TimestampTooFarInFuture) <==> parented && h.version != 0 && !timely)
            && (e == Some(InvalidDifficulty) <==> parented && h.version != 0 && timely && h.difficulty == 0)
            && (sound ==> forall i: nat | FirstIncomplete(txs, i) ::
                  e == Some(if !Nonzero(txs[i].id) then InvalidTransactionID
                            else if !Nonzero(txs[i].from) || !Nonzero(txs[i].to) then InvalidAddresses
                            else MissingSignature))
            && (e == Some(InvalidHeight((s.currentHeight + 1) % U64, h.height)) <==>
                  sound && (forall i: nat :: !FirstIncomplete(txs, i)) && h.height != (s.currentHeight + 1) % U64)
            && (e == None <==>
                  sound && (forall i: nat :: !FirstIncomplete(txs, i)) && h.height == (s.currentHeight + 1) % U64)
  {
    hide Nonzero, TransactionsError, FirstIncomplete, WellFormed;
    FirstIncompleteIsReported(b.transactions);
    ErrorsNameFaults(b, now);
  }

  /** The bytes of "genesis". */
  const GENESIS: seq<byte> := [103, 101, 110, 101, 115, 105, 115]

  function GenesisBlock(H: HashFn, now: int64): Block {
    Block(BlockHeader(1, 0, now, ZERO_HASH, H(GENESIS), ZERO_HASH, ZERO_HASH, 0, 1, 0, []), [])
  }

  /** The genesis block passes the checks unless the clock is about to wrap. */
  lemma {:induction false} GenesisIsWellFormed(H: HashFn, now: int64)
    ensures WellFormed(GenesisBlock(H, now), now) <==> now < I63 - 300
  {
  }
}
