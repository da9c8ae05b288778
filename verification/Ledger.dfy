/** The world state in memory: accounts behind pointers, copied deeply, changed in place, then committed or dropped. */
module Ledgers {
  import opened Types
  import opened LedgerSpec

  class AccountState {
    /** The address it is filed under; so no two entries of a world share an account. */
    ghost const owner: Address
    var balance: uint64
    var nonce: uint64
    var codeHash: Hash
    var storage: map<Hash, Hash>

    constructor (ghost owner: Address, balance: uint64, nonce: uint64, codeHash: Hash)
      ensures this.owner == owner && Value() == Account(balance, nonce, codeHash, map[])
    {
      this.owner := owner;
      this.balance, this.nonce, this.codeHash, storage := balance, nonce, codeHash, map[];
    }

    ghost function Value(): Account
      reads this
    {
      Account(balance, nonce, codeHash, storage)
    }
  }

  class ContractState {
    var codeHash: Hash
    var storage: map<Hash, Hash>
    var balance: uint64
    var nonce: uint64

    constructor (codeHash: Hash, balance: uint64, nonce: uint64)
      ensures Value() == Account(balance, nonce, codeHash, map[])
    {
      this.codeHash, this.balance, this.nonce, storage := codeHash, balance, nonce, map[];
    }

    ghost function Value(): Account
      reads this
    {
      Account(balance, nonce, codeHash, storage)
    }
  }

  datatype ShardValue = ShardValue(shardID: uint32, stateRoot: Hash, accounts: map<Address, Account>, lastModified: int)

  class ShardState {
    var shardID: uint32
    var stateRoot: Hash
    var accounts: map<Address, Account>
    var lastModified: int

    constructor (shardID: uint32, stateRoot: Hash, lastModified: int)
      ensures Value() == ShardValue(shardID, stateRoot, map[], lastModified)
    {
      this.shardID, this.stateRoot, this.lastModified, accounts := shardID, stateRoot, lastModified, map[];
    }

    ghost function Value(): ShardValue
      reads this
    {
      ShardValue(shardID, stateRoot, accounts, lastModified)
    }
  }

  type Accounts = map<Address, AccountState>
  type Contracts = map<Address, ContractState>
  type Shards = map<uint32, ShardState>

  /** No account object is filed under two addresses. */
  ghost predicate Separate(accounts: Accounts) {
    forall a | a in accounts :: accounts[a].owner == a
  }

  ghost function LedgerOf(accounts: Accounts): Ledger
    reads accounts.Values
  {
    map a | a in accounts :: accounts[a].Value()
  }

  ghost function ContractValues(contracts: Contracts): Ledger
    reads contracts.Values
  {
    map a | a in contracts :: contracts[a].Value()
  }

  ghost function ShardValues(shards: Shards): map<uint32, ShardValue>
    reads shards.Values
  {
    map id | id in shards :: shards[id].Value()
  }

  /** Entry by entry, in whatever order the iteration yields. */
  method CopyMap<K, V>(m: map<K, V>) returns (copy: map<K, V>)
    ensures copy == m
  {
    copy := map[];
    var todo := m.Keys;
    while todo != {}
      invariant todo <= m.Keys && copy == m - todo
      decreases todo
    {
      var k :| k in todo;
      todo := todo - {k};
      copy := copy[k := m[k]];
    }
  }

  method CopyAccounts(accounts: Accounts) returns (copies: Accounts)
    ensures Separate(copies) && fresh(copies.Values) && LedgerOf(copies) == LedgerOf(accounts)
  {
    copies := map[];
    var todo := accounts.Keys;
    while todo != {}
      invariant todo <= accounts.Keys && copies.Keys == accounts.Keys - todo
      invariant Separate(copies) && forall a | a in copies :: fresh(copies[a])
      invariant forall a | a in copies :: copies[a].Value() == accounts[a].Value()
      decreases todo
    {
      var addr :| addr in todo;
      todo := todo - {addr};
      var account := accounts[addr];
      var newAccount := new AccountState(addr, account.balance, account.nonce, account.codeHash);
      newAccount.storage := CopyMap(account.storage);
      copies := copies[addr := newAccount];
    }
  }

  method CopyContracts(contracts: Contracts) returns (copies: Contracts)
    ensures fresh(copies.Values) && ContractValues(copies) == ContractValues(contracts)
  {
    copies := map[];
    var todo := contracts.Keys;
    while todo != {}
      invariant todo <= contracts.Keys && copies.Keys == contracts.Keys - todo
      invariant forall a | a in copies :: fresh(copies[a])
      invariant forall a | a in copies :: copies[a].Value() == contracts[a].Value()
      decreases todo
    {
      var addr :| addr in todo;
      todo := todo - {addr};
      var contract := contracts[addr];
      var newContract := new ContractState(contract.codeHash, contract.balance, contract.nonce);
      newContract.storage := CopyMap(contract.storage);
      copies := copies[addr := newContract];
    }
  }

  method CopyShards(shards: Shards) returns (copies: Shards)
    ensures fresh(copies.Values) && ShardValues(copies) == ShardValues(shards)
  {
    copies := map[];
    var todo := shards.Keys;
    while todo != {}
      invariant todo <= shards.Keys && copies.Keys == shards.Keys - todo
      invariant forall id | id in copies :: fresh(copies[id])
      invariant forall id | id in copies :: copies[id].Value() == shards[id].Value()
      decreases todo
    {
      var id :| id in todo;
      todo := todo - {id};
      var shard := shards[id];
      var newShard := new ShardState(shard.shardID, shard.stateRoot, shard.lastModified);
      newShard.accounts := CopyMap(shard.accounts);
      copies := copies[id := newShard];
    }
  }

  class WorldState {
    var stateRoot: Hash
    var accounts: Accounts
    var contracts: Contracts
    var shards: Shards
    var accumulatorRoot: Hash
    var timestamp: int

    constructor (accounts: Accounts, contracts: Contracts, shards: Shards, timestamp: int)
      ensures this.accounts == accounts && this.contracts == contracts && this.shards == shards
      ensures this.timestamp == timestamp
    {
      this.accounts, this.contracts, this.shards, this.timestamp := accounts, contracts, shards, timestamp;
      stateRoot, accumulatorRoot := ZERO_HASH, ZERO_HASH;
    }

    ghost function Ledger(): Ledger
      reads this, accounts.Values
    {
      LedgerOf(accounts)
    }

    /** Enter the roots and the time of the update. */
    method Seal(accumulatorRoot: Hash, stateRoot: Hash, now: int)
      modifies `accumulatorRoot, `stateRoot, `timestamp
      ensures this.accumulatorRoot == accumulatorRoot && this.stateRoot == stateRoot && timestamp == now
    {
      this.accumulatorRoot := accumulatorRoot;
      this.stateRoot := stateRoot;
      timestamp := now;
    }
  }

  /** A deep copy: equal in value, sharing no account, contract or shard with the original. */
  method copyState(state: WorldState) returns (newState: WorldState)
    ensures fresh(newState) && newState.timestamp == state.timestamp
    ensures Separate(newState.accounts) && fresh(newState.accounts.Values) && newState.Ledger() == state.Ledger()
    ensures fresh(newState.contracts.Values) && ContractValues(newState.contracts) == ContractValues(state.contracts)
    ensures fresh(newState.shards.Values) && ShardValues(newState.shards) == ShardValues(state.shards)
  {
    var accounts := CopyAccounts(state.accounts);
    var contracts := CopyContracts(state.contracts);
    var shards := CopyShards(state.shards);
    newState := new WorldState(accounts, contracts, shards, state.timestamp);
  }

  /** The sender pays. */
  method Debit(state: WorldState, tx: Transaction)
    requires Separate(state.accounts) && Refusal(state.Ledger(), tx) == None
    modifies state.accounts[tx.from]
    ensures state.Ledger() == Debited(old(state.Ledger()), tx)
  {
    var sender := state.accounts[tx.from];
    sender.balance := sender.balance - tx.value;
    sender.nonce := Wrap64(sender.nonce + 1);
  }

  /** The receiver is paid, on a new account if it has none. */
  method Credit(state: WorldState, to: Address, value: uint64)
    requires Separate(state.accounts)
    modifies state`accounts, state.accounts.Values
    ensures Separate(state.accounts) && fresh(state.accounts.Values - old(state.accounts.Values))
    ensures state.Ledger() == Credited(old(state.Ledger()), to, value)
  {
    var receiver;
    if to in state.accounts {
      receiver := state.accounts[to];
    } else {
      receiver := new AccountState(to, 0, 0, ZERO_HASH);
      state.accounts := state.accounts[to := receiver];
    }
    ghost var expected := Credited(old(state.Ledger()), to, value);
    receiver.balance := Wrap64(receiver.balance + value);
    assert state.accounts.Keys == expected.Keys;
    forall a | a in state.accounts ensures state.accounts[a].Value() == expected[a] {
      assert a != to ==> state.accounts[a] == old(state.accounts)[a] != receiver;
    }
  }

  /** Carry out a transfer on the account objects, or refuse it and touch nothing. */
  method applyTransaction(state: WorldState, tx: Transaction) returns (refusal: Option<TransferError>)
    requires Separate(state.accounts)
    modifies state`accounts, state.accounts.Values
    ensures Separate(state.accounts) && fresh(state.accounts.Values - old(state.accounts.Values))
    ensures refusal == Refusal(old(state.Ledger()), tx)
    ensures refusal == Some(SenderNotFound) <==> tx.from !in old(state.accounts)
    ensures refusal == Some(InvalidNonce) <==>
              tx.from in old(state.accounts) && tx.nonce != old(state.accounts[tx.from].nonce)
    ensures refusal == Some(InsufficientBalance) <==>
              && tx.from in old(state.accounts) && tx.nonce == old(state.accounts[tx.from].nonce)
              && tx.value > old(state.accounts[tx.from].balance)
    ensures refusal == None ==> state.Ledger() == Transfer(old(state.Ledger()), tx)
    ensures refusal != None ==> state.accounts == old(state.accounts) && state.Ledger() == old(state.Ledger())
  {
    if tx.from !in state.accounts {
      return Some(SenderNotFound);
    }
    var sender := state.accounts[tx.from];
    if tx.nonce != sender.nonce {
      return Some(InvalidNonce);
    }
    if sender.balance < tx.value {
      return Some(InsufficientBalance);
    }
    Debit(state, tx);
    Credit(state, tx.to, tx.value);
    refusal := None;
  }

  /** All transactions in turn, up to the first one refused. */
  method ApplyAll(state: WorldState, txs: seq<Transaction>) returns (ok: bool)
    requires Separate(state.accounts)
    modifies state`accounts, state.accounts.Values
    ensures Separate(state.accounts) && fresh(state.accounts.Values - old(state.accounts.Values))
    ensures ok == TransferAll(old(state.Ledger()), txs).Some?
    ensures ok ==> state.Ledger() == TransferAll(old(state.Ledger()), txs).value
  {
    ghost var before := state.Ledger();
    assert txs[..0] == [];
    for i := 0 to |txs|
      invariant Separate(state.accounts) && fresh(state.accounts.Values - old(state.accounts.Values))
      invariant TransferAll(before, txs[..i]) == Some(state.Ledger())
    {
      assert txs[..i + 1][..i] == txs[..i];
      var refusal := applyTransaction(state, txs[i]);
      if refusal != None {
        if TransferAll(before, txs).Some? {
          TransferAllPrefix(before, txs, i + 1);
        }
        return false;
      }
    }
    assert txs[..|txs|] == txs;
    ok := true;
  }

  class StateManager {
    var currentState: WorldState
    var stateHistory: map<uint64, StateSnapshot>

    ghost predicate Valid()
      reads this, currentState
    {
      Separate(currentState.accounts)
    }

    constructor (now: int)
      ensures Valid() && currentState.Ledger() == map[] && currentState.contracts == map[] && stateHistory == map[]
    {
      currentState := new WorldState(map[], map[], map[], now);
      stateHistory := map[];
    }

    /** The transactions, carried out on a copy of the current state. */
    method Execute(txs: seq<Transaction>) returns (newState: Option<WorldState>)
      ensures newState.Some? <==> TransferAll(currentState.Ledger(), txs).Some?
      ensures newState.Some? ==>
                var world := newState.value;
                && fresh(world) && Separate(world.accounts) && world.Ledger() == TransferAll(currentState.Ledger(), txs).value
                && fresh(world.accounts.Values) && fresh(world.contracts.Values) && fresh(world.shards.Values)
                && ContractValues(world.contracts) == ContractValues(currentState.contracts)
                && ShardValues(world.shards) == ShardValues(currentState.shards)
    {
      hide TransferAll, LedgerOf, ContractValues, ShardValues;
      var copy := copyState(currentState);
      var ok := ApplyAll(copy, txs);
      newState := if ok then Some(copy) else None;
    }

    /** Compress and archive the old state when the height asks for it, and save the new one. */
    method Store(newState: WorldState, height: uint64, env: Environment) returns (outcome: Outcome, snapshot: StateSnapshot)
      ensures outcome == Stored(height, env)
      ensures outcome == Committed ==>
                snapshot == StateSnapshot(height, newState.stateRoot, env.now, ShouldCompress(height), ShouldArchive(height))
    {
      snapshot := StateSnapshot(height, newState.stateRoot, env.now, false, false);
      if ShouldCompress(height) {
        if env.compressionFails {
          return CompressionFailed, snapshot;
        }
        snapshot := snapshot.(compressed := true);
      }
      if ShouldArchive(height) {
        if env.archivingFails {
          return ArchivingFailed, snapshot;
        }
        snapshot := snapshot.(archived := true);
      }
      outcome := if env.savingFails then SavingFailed else Committed;
    }

    /**
     * Commit the block's transactions, all or none. Only the two fields of the manager change: every account, contract
     * and shard of the state it had, and the snapshots, stay as they were, and the new state shares nothing with them.
     */
    method UpdateState(height: uint64, txs: seq<Transaction>, env: Environment) returns (outcome: Outcome)
      modifies `currentState, `stateHistory
      ensures outcome == Verdict(old(currentState.Ledger()), height, txs, env)
      ensures outcome == Committed || old(Valid()) ==> Valid()
      ensures currentState.Ledger() == Updated(old(currentState.Ledger()), Update(height, txs, env))
      ensures outcome != Committed ==> currentState == old(currentState) && stateHistory == old(stateHistory)
      ensures outcome == Committed ==>
                && fresh(currentState) && fresh(currentState.accounts.Values)
                && fresh(currentState.contracts.Values) && fresh(currentState.shards.Values)
                && ContractValues(currentState.contracts) == old(ContractValues(currentState.contracts))
                && ShardValues(currentState.shards) == old(ShardValues(currentState.shards))
                && currentState.accumulatorRoot == env.accumulatorRoot[..32]
                && currentState.stateRoot == env.stateRoot && currentState.timestamp == env.now
      ensures outcome == Committed ==>
                stateHistory == old(stateHistory)[height :=
                  StateSnapshot(height, env.stateRoot, env.now, height % 1000 == 0, height % 10000 == 0)]
    {
      hide TransferAll, LedgerOf, ContractValues, ShardValues, Stored, Separate;
      var executed := Execute(txs);
      if executed == None {
        return TransactionFailed;
      }
      if |env.accumulatorRoot| < 32 {
        return Panicked;
      }
      var newState := executed.value;
      newState.Seal(env.accumulatorRoot[..32], env.stateRoot, env.now);
      var snapshot;
      outcome, snapshot := Store(newState, height, env);
      if outcome == Committed {
        currentState := newState;
        stateHistory := stateHistory[height := snapshot];
      }
    }
  }
}
