/** What transactions and blocks do to the accounts, as functions; and what no run of blocks can change. */
module LedgerSpec {
  import opened Types

  datatype Account = Account(balance: uint64, nonce: uint64, codeHash: Hash, storage: map<Hash, Hash>)

  const NEW_ACCOUNT := Account(0, 0, ZERO_HASH, map[])

  type Ledger = map<Address, Account>

  datatype TransferError = SenderNotFound | InvalidNonce | InsufficientBalance

  /** Why a transaction is refused, if it is. */
  function Refusal(ledger: Ledger, tx: Transaction): Option<TransferError> {
    if tx.from !in ledger then Some(SenderNotFound)
    else if tx.nonce != ledger[tx.from].nonce then Some(InvalidNonce)
    else if ledger[tx.from].balance < tx.value then Some(InsufficientBalance)
    else None
  }

  function Debited(ledger: Ledger, tx: Transaction): Ledger
    requires Refusal(ledger, tx) == None
  {
    var sender := ledger[tx.from];
    ledger[tx.from := sender.(balance := sender.balance - tx.value, nonce := Wrap64(sender.nonce + 1))]
  }

  function Credited(ledger: Ledger, to: Address, value: uint64): Ledger {
    var receiver := if to in ledger then ledger[to] else NEW_ACCOUNT;
    ledger[to := receiver.(balance := Wrap64(receiver.balance + value))]
  }

  /** The sender pays first, so a payment to oneself is credited to the balance already reduced. */
  function Transfer(ledger: Ledger, tx: Transaction): Ledger
    requires Refusal(ledger, tx) == None
  {
    Credited(Debited(ledger, tx), tx.to, tx.value)
  }

  /** The ledger after all transactions, unless one is refused. */
  function TransferAll(ledger: Ledger, txs: seq<Transaction>): Option<Ledger> {
    if txs == [] then Some(ledger)
    else
      match TransferAll(ledger, txs[..|txs| - 1])
      case None => None
      case Some(before) =>
        var tx := txs[|txs| - 1];
        if Refusal(before, tx) == None then Some(Transfer(before, tx)) else None
  }

  lemma {:induction false} TransferAllPrefix(ledger: Ledger, txs: seq<Transaction>, k: nat)
    requires k <= |txs| && TransferAll(ledger, txs).Some?
    ensures TransferAll(ledger, txs[..k]).Some?
  {
    if k == |txs| {
      assert txs[..k] == txs;
    } else {
      TransferAllPrefix(ledger, txs[..|txs| - 1], k);
      assert txs[..|txs| - 1][..k] == txs[..k];
    }
  }

  lemma {:induction false} TransferAllConcat(ledger: Ledger, first: seq<Transaction>, second: seq<Transaction>)
    requires TransferAll(ledger, first).Some?
    ensures TransferAll(ledger, first + second) == TransferAll(TransferAll(ledger, first).value, second)
  {
    if second == [] {
      assert first + second == first;
    } else {
      var front := second[..|second| - 1];
      TransferAllConcat(ledger, first, front);
      assert (first + second)[..|first + second| - 1] == first + front;
    }
  }

  // ---- 64-bit wrap-around --------------------------------------------------------------------

  lemma {:induction false} SameNonce(nonce: int, sent: nat, more: nat)
    ensures Wrap64(nonce + sent) == Wrap64(nonce + (sent + more)) <==> more % U64 == 0
    ensures 0 < more < U64 ==> Wrap64(nonce + sent) != Wrap64(nonce + (sent + more))
  {
  }

  lemma {:induction false} WrapFits(x: uint64)
    ensures Wrap64(x) == x
  {
  }

  lemma {:induction false} WrapTwice(x: int, d: int)
    ensures Wrap64(Wrap64(x) + d) == Wrap64(x + d)
  {
  }

  // ---- supply --------------------------------------------------------------------------------

  /** The sum of all balances, unbounded. */
  ghost function Total(ledger: Ledger): nat
    decreases |ledger|
  {
    if ledger == map[] then 0
    else
      var a :| a in ledger;
      RemovedIsSmaller(ledger, a);
      ledger[a].balance + Total(ledger - {a})
  }

  /** Whichever account is counted first. */
  lemma {:induction false} TotalWithout(ledger: Ledger, a: Address)
    requires a in ledger
    ensures Total(ledger) == ledger[a].balance + Total(ledger - {a})
    decreases |ledger|
  {
    var b: Address :| b in ledger && Total(ledger) == ledger[b].balance + Total(ledger - {b});
    if a != b {
      RemovedIsSmaller(ledger, a);
      RemovedIsSmaller(ledger, b);
      TotalWithout(ledger - {b}, a);
      TotalWithout(ledger - {a}, b);
      assert ledger - {a} - {b} == ledger - {b} - {a};
    }
  }

  /** Filing an account changes the total by the difference of the balances. */
  lemma {:induction false} TotalUpdated(ledger: Ledger, a: Address, account: Account)
    ensures Total(ledger[a := account])
         == Total(ledger) + account.balance - (if a in ledger then ledger[a].balance else 0)
  {
    TotalWithout(ledger[a := account], a);
    assert ledger[a := account] - {a} == ledger - {a};
    if a in ledger {
      TotalWithout(ledger, a);
    } else {
      assert ledger - {a} == ledger;
    }
  }

  /** The receiver's balance does not fit in 64 bits once the sender has paid. */
  ghost predicate Overflows(ledger: Ledger, tx: Transaction)
    requires Refusal(ledger, tx) == None
  {
    var debited := Debited(ledger, tx);
    tx.to in debited && debited[tx.to].balance + tx.value >= U64
  }

  /** A transfer changes the supply only by overflowing: then 2^64 is lost. */
  lemma {:induction false} TransferKeepsTotal(ledger: Ledger, tx: Transaction)
    requires Refusal(ledger, tx) == None
    ensures Total(Transfer(ledger, tx)) == Total(ledger) - (if Overflows(ledger, tx) then U64 else 0)
    ensures Total(ledger) < U64 ==> !Overflows(ledger, tx)
  {
    var debited := Debited(ledger, tx);
    TotalUpdated(ledger, tx.from, debited[tx.from]);
    TotalUpdated(debited, tx.to, Transfer(ledger, tx)[tx.to]);
    if tx.to in debited {
      TotalWithout(debited, tx.to);
    }
  }

  /** The number of transfers that overflow, each in the ledger the ones before it leave. */
  ghost function Overflowing(ledger: Ledger, txs: seq<Transaction>): nat
    requires TransferAll(ledger, txs).Some?
  {
    if txs == [] then 0
    else
      var front := txs[..|txs| - 1];
      Overflowing(ledger, front)
      + (if Overflows(TransferAll(ledger, front).value, txs[|txs| - 1]) then 1 else 0)
  }

  /** Conservation: the supply is kept exactly if and only if nothing overflows, which is certain below 2^64. */
  lemma {:induction false} SupplyConservation(ledger: Ledger, txs: seq<Transaction>)
    requires TransferAll(ledger, txs).Some?
    ensures Total(TransferAll(ledger, txs).value) == Total(ledger) - U64 * Overflowing(ledger, txs)
    ensures Total(TransferAll(ledger, txs).value) == Total(ledger) <==> Overflowing(ledger, txs) == 0
    ensures Total(ledger) < U64 ==> Overflowing(ledger, txs) == 0
  {
    if txs != [] {
      var front := txs[..|txs| - 1];
      SupplyConservation(ledger, front);
      TransferKeepsTotal(TransferAll(ledger, front).value, txs[|txs| - 1]);
    }
  }

  // ---- who holds what ------------------------------------------------------------------------

  function BalanceOf(ledger: Ledger, a: Address): uint64 {
    if a in ledger then ledger[a].balance else 0
  }

  /** What the address is paid, less what it pays. */
  ghost function NetIncome(txs: seq<Transaction>, a: Address): int {
    if txs == [] then 0
    else
      var tx := txs[|txs| - 1];
      NetIncome(txs[..|txs| - 1], a) + (if tx.to == a then tx.value else 0) - (if tx.from == a then tx.value else 0)
  }

  lemma {:induction false} TransferMovesValue(ledger: Ledger, tx: Transaction, a: Address)
    requires Refusal(ledger, tx) == None
    ensures var income := (if tx.to == a then tx.value else 0) - (if tx.from == a then tx.value else 0);
            && BalanceOf(Transfer(ledger, tx), a) == Wrap64(BalanceOf(ledger, a) + income)
            && (!Overflows(ledger, tx) ==> BalanceOf(Transfer(ledger, tx), a) == BalanceOf(ledger, a) + income)
  {
  }

  /** Every balance follows the payments, modulo 2^64 in general and exactly when nothing overflows. */
  lemma {:induction false} BalancesFollowPayments(ledger: Ledger, txs: seq<Transaction>, a: Address)
    requires TransferAll(ledger, txs).Some?
    ensures BalanceOf(TransferAll(ledger, txs).value, a) == Wrap64(BalanceOf(ledger, a) + NetIncome(txs, a))
    ensures Overflowing(ledger, txs) == 0 ==>
              BalanceOf(TransferAll(ledger, txs).value, a) == BalanceOf(ledger, a) + NetIncome(txs, a)
  {
    hide Wrap64, Overflows, Transfer;
    if txs == [] {
      WrapFits(BalanceOf(ledger, a));
    } else {
      var front, tx := txs[..|txs| - 1], txs[|txs| - 1];
      BalancesFollowPayments(ledger, front, a);
      TransferMovesValue(TransferAll(ledger, front).value, tx, a);
      WrapTwice(BalanceOf(ledger, a) + NetIncome(front, a),
                (if tx.to == a then tx.value else 0) - (if tx.from == a then tx.value else 0));
    }
  }

  ghost function Receivers(txs: seq<Transaction>): set<Address> {
    set i | 0 <= i < |txs| :: txs[i].to
  }

  function CodeOf(ledger: Ledger, a: Address): (Hash, map<Hash, Hash>) {
    if a in ledger then (ledger[a].codeHash, ledger[a].storage) else (ZERO_HASH, map[])
  }

  /** Accounts are only ever created, for receivers; code and storage stay as they are. */
  lemma {:induction false} OnlyReceiversAppear(ledger: Ledger, txs: seq<Transaction>, a: Address)
    requires TransferAll(ledger, txs).Some?
    ensures a in TransferAll(ledger, txs).value <==> a in ledger || a in Receivers(txs)
    ensures CodeOf(TransferAll(ledger, txs).value, a) == CodeOf(ledger, a)
  {
    if txs != [] {
      var front, tx := txs[..|txs| - 1], txs[|txs| - 1];
      OnlyReceiversAppear(ledger, front, a);
      LastReceiver(txs);
    }
  }

  lemma {:induction false} LastReceiver(txs: seq<Transaction>)
    requires txs != []
    ensures Receivers(txs) == Receivers(txs[..|txs| - 1]) + {txs[|txs| - 1].to}
  {
  }

  // ---- nonces --------------------------------------------------------------------------------

  /** An account yet to be created starts at 0. */
  function NonceOf(ledger: Ledger, a: Address): uint64 {
    if a in ledger then ledger[a].nonce else 0
  }

  /** The number of transactions the address sends. */
  ghost function Sent(txs: seq<Transaction>, a: Address): (n: nat)
    ensures n <= |txs|
  {
    if txs == [] then 0
    else Sent(txs[..|txs| - 1], a) + (if txs[|txs| - 1].from == a then 1 else 0)
  }

  lemma {:induction false} SentConcat(first: seq<Transaction>, second: seq<Transaction>, a: Address)
    ensures Sent(first + second, a) == Sent(first, a) + Sent(second, a)
  {
    if second == [] {
      assert first + second == first;
    } else {
      var front := second[..|second| - 1];
      SentConcat(first, front, a);
      assert (first + second)[..|first + second| - 1] == first + front;
    }
  }

  lemma {:induction false} FirstIsSent(txs: seq<Transaction>)
    requires txs != []
    ensures Sent(txs, txs[0].from) > 0
  {
    if |txs| > 1 {
      FirstIsSent(txs[..|txs| - 1]);
    }
  }

  lemma {:induction false} TransferCountsOne(ledger: Ledger, tx: Transaction, a: Address)
    requires Refusal(ledger, tx) == None
    ensures NonceOf(Transfer(ledger, tx), a)
         == (if a == tx.from then Wrap64(NonceOf(ledger, a) + 1) else NonceOf(ledger, a))
  {
  }

  /** Every nonce grows by exactly the number of transactions sent, whether the account existed or not. */
  lemma {:induction false} NonceCountsSent(ledger: Ledger, txs: seq<Transaction>, a: Address)
    requires TransferAll(ledger, txs).Some?
    ensures NonceOf(TransferAll(ledger, txs).value, a) == Wrap64(NonceOf(ledger, a) + Sent(txs, a))
  {
    if txs != [] {
      var front, tx := txs[..|txs| - 1], txs[|txs| - 1];
      NonceCountsSent(ledger, front, a);
      TransferCountsOne(TransferAll(ledger, front).value, tx, a);
      WrapTwice(NonceOf(ledger, a) + Sent(front, a), 1);
    }
  }

  /** The i-th transaction carries the next nonce of a sender that started at the given one. */
  ghost predicate Numbered(start: uint64, txs: seq<Transaction>, i: nat) {
    i < |txs| && txs[i].nonce == Wrap64(start + Sent(txs[..i], txs[i].from))
  }

  /** The transactions of one sender carry consecutive nonces in order. */
  lemma {:induction false} ConsecutiveNonces(ledger: Ledger, txs: seq<Transaction>, i: nat)
    requires TransferAll(ledger, txs).Some? && i < |txs|
    ensures Numbered(NonceOf(ledger, txs[i].from), txs, i)
  {
    TransferAllPrefix(ledger, txs, i);
    TransferAllPrefix(ledger, txs, i + 1);
    assert txs[..i + 1][..i] == txs[..i];
    NonceCountsSent(ledger, txs[..i], txs[i].from);
  }

  lemma {:induction false} NumberedApart(start: uint64, txs: seq<Transaction>, i: nat, j: nat)
    requires i < j < |txs| && txs[i].from == txs[j].from
    requires Numbered(start, txs, i) && Numbered(start, txs, j)
    ensures var sent := Sent(txs[i..j], txs[i].from);
            0 < sent && (txs[i].nonce == txs[j].nonce <==> sent % U64 == 0)
  {
    var a := txs[i].from;
    assert txs[..j] == txs[..i] + txs[i..j];
    SentConcat(txs[..i], txs[i..j], a);
    FirstIsSent(txs[i..j]);
    SameNonce(start, Sent(txs[..i], a), Sent(txs[i..j], a));
  }

  /** Two transactions of one sender share a nonce only if a multiple of 2^64 of that sender's lie between them. */
  lemma {:induction false} NoReplay(ledger: Ledger, txs: seq<Transaction>, i: nat, j: nat)
    requires TransferAll(ledger, txs).Some? && i < j < |txs| && txs[i].from == txs[j].from
    ensures txs[i].nonce == txs[j].nonce <==> Sent(txs[i..j], txs[i].from) % U64 == 0
    ensures |txs| <= U64 ==> txs[i].nonce != txs[j].nonce
  {
    ConsecutiveNonces(ledger, txs, i);
    ConsecutiveNonces(ledger, txs, j);
    NumberedApart(NonceOf(ledger, txs[i].from), txs, i, j);
  }

  /** A list of fewer than 2^64 transactions that went through does not go through again. */
  lemma {:induction false} ResubmissionFails(ledger: Ledger, txs: seq<Transaction>)
    requires TransferAll(ledger, txs).Some? && 0 < |txs| < U64
    ensures TransferAll(TransferAll(ledger, txs).value, txs) == None
  {
    TransferAllConcat(ledger, txs, txs);
    if TransferAll(ledger, txs + txs).Some? {
      assert (txs + txs)[0..|txs|] == txs;
      NoReplay(ledger, txs + txs, 0, |txs|);
      FirstIsSent(txs);
    }
  }

  // ---- when transactions go through ----------------------------------------------------------

  /**
   * The i-th transaction comes from an account that exists or was paid before, carries its next nonce, and spends at most
   * what the sender had and was paid, less what it paid, in 64 bits.
   */
  ghost predicate GoesThroughAt(ledger: Ledger, txs: seq<Transaction>, i: int)
    requires 0 <= i < |txs|
  {
    var from := txs[i].from;
    && (from in ledger || from in Receivers(txs[..i])) && Numbered(NonceOf(ledger, from), txs, i)
    && txs[i].value <= Wrap64(BalanceOf(ledger, from) + NetIncome(txs[..i], from))
  }

  /** As GoesThroughAt, with the sum taken as it is. */
  ghost predicate AffordableAt(ledger: Ledger, txs: seq<Transaction>, i: int)
    requires 0 <= i < |txs|
  {
    var from := txs[i].from;
    && (from in ledger || from in Receivers(txs[..i])) && Numbered(NonceOf(ledger, from), txs, i)
    && txs[i].value <= BalanceOf(ledger, from) + NetIncome(txs[..i], from)
  }

  lemma {:induction false} LastGoesThrough(ledger: Ledger, txs: seq<Transaction>)
    requires txs != [] && TransferAll(ledger, txs[..|txs| - 1]).Some?
    ensures TransferAll(ledger, txs).Some? <==> GoesThroughAt(ledger, txs, |txs| - 1)
    ensures Total(ledger) < U64 ==> (TransferAll(ledger, txs).Some? <==> AffordableAt(ledger, txs, |txs| - 1))
  {
    hide NetIncome, Sent, Receivers, Total, Overflowing, Wrap64;
    var front, from := txs[..|txs| - 1], txs[|txs| - 1].from;
    OnlyReceiversAppear(ledger, front, from);
    NonceCountsSent(ledger, front, from);
    BalancesFollowPayments(ledger, front, from);
    SupplyConservation(ledger, front);
  }

  lemma {:induction false} SameInFront(ledger: Ledger, txs: seq<Transaction>, i: nat)
    requires i < |txs| - 1
    ensures GoesThroughAt(ledger, txs[..|txs| - 1], i) <==> GoesThroughAt(ledger, txs, i)
    ensures AffordableAt(ledger, txs[..|txs| - 1], i) <==> AffordableAt(ledger, txs, i)
  {
    hide Wrap64, Receivers, NonceOf, BalanceOf, NetIncome, Sent;
    assert txs[..|txs| - 1][..i] == txs[..i];
  }

  lemma {:induction false} FrontGoesFirst(ledger: Ledger, txs: seq<Transaction>)
    ensures txs == [] ==> TransferAll(ledger, txs).Some?
    ensures txs != [] && TransferAll(ledger, txs).Some? ==> TransferAll(ledger, txs[..|txs| - 1]).Some?
  {
  }

  /** A list of transactions goes through if and only if each of them, with those before it made, meets the three conditions. */
  lemma {:induction false} WhenTransfersGoThrough(ledger: Ledger, txs: seq<Transaction>)
    ensures TransferAll(ledger, txs).Some? <==> forall i | 0 <= i < |txs| :: GoesThroughAt(ledger, txs, i)
  {
    hide TransferAll, GoesThroughAt;
    FrontGoesFirst(ledger, txs);
    if txs != [] {
      var front := txs[..|txs| - 1];
      WhenTransfersGoThrough(ledger, front);
      forall i | 0 <= i < |front| ensures GoesThroughAt(ledger, front, i) <==> GoesThroughAt(ledger, txs, i) {
        SameInFront(ledger, txs, i);
      }
      if TransferAll(ledger, front).Some? {
        LastGoesThrough(ledger, txs);
      }
    }
  }

  /** Below a supply of 2^64 no sum wraps. */
  lemma {:induction false} WhenTransfersAreAffordable(ledger: Ledger, txs: seq<Transaction>)
    requires Total(ledger) < U64
    ensures TransferAll(ledger, txs).Some? <==> forall i | 0 <= i < |txs| :: AffordableAt(ledger, txs, i)
  {
    hide TransferAll, AffordableAt;
    FrontGoesFirst(ledger, txs);
    if txs != [] {
      var front := txs[..|txs| - 1];
      WhenTransfersAreAffordable(ledger, front);
      forall i | 0 <= i < |front| ensures AffordableAt(ledger, front, i) <==> AffordableAt(ledger, txs, i) {
        SameInFront(ledger, txs, i);
      }
      if TransferAll(ledger, front).Some? {
        LastGoesThrough(ledger, txs);
      }
    }
  }

  // ---- blocks --------------------------------------------------------------------------------

  datatype StateSnapshot = StateSnapshot(height: uint64, stateRoot: Hash, timestamp: int, compressed: bool, archived: bool)

  /** What a block update gets from outside: the roots it computes, the clock and whether storing succeeds. */
  datatype Environment = Environment(accumulatorRoot: seq<byte>, stateRoot: Hash, now: int,
                                     compressionFails: bool, archivingFails: bool, savingFails: bool)

  datatype Outcome = Committed | TransactionFailed | Panicked | CompressionFailed | ArchivingFailed | SavingFailed

  predicate ShouldCompress(height: uint64) {
    height % 1000 == 0
  }

  predicate ShouldArchive(height: uint64) {
    height % 10000 == 0
  }

  /** How storing the states ends: the first failure that the height lets happen. */
  function Stored(height: uint64, env: Environment): Outcome {
    if ShouldCompress(height) && env.compressionFails then CompressionFailed
    else if ShouldArchive(height) && env.archivingFails then ArchivingFailed
    else if env.savingFails then SavingFailed
    else Committed
  }

  /** How an update ends: the first obstacle met, if any. A slice of fewer than 32 bytes does not convert to a hash. */
  function Verdict(ledger: Ledger, height: uint64, txs: seq<Transaction>, env: Environment): Outcome {
    if TransferAll(ledger, txs) == None then TransactionFailed
    else if |env.accumulatorRoot| < 32 then Panicked
    else Stored(height, env)
  }

  /** The outcomes, in the order of the obstacles: every 1000th height is compressed, every 10000th archived as well. */
  lemma {:induction false} WhatStopsAnUpdate(ledger: Ledger, height: uint64, txs: seq<Transaction>, env: Environment)
    ensures var outcome, made := Verdict(ledger, height, txs, env), TransferAll(ledger, txs).Some? && |env.accumulatorRoot| >= 32;
            && (outcome == TransactionFailed <==> TransferAll(ledger, txs) == None)
            && (outcome == Panicked <==> TransferAll(ledger, txs).Some? && |env.accumulatorRoot| < 32)
            && (outcome == CompressionFailed <==> made && height % 1000 == 0 && env.compressionFails)
            && (outcome == ArchivingFailed <==>
                  made && height % 10000 == 0 && env.archivingFails && !env.compressionFails)
            && (outcome == Committed <==>
                  && made && !env.savingFails && !(height % 1000 == 0 && env.compressionFails)
                  && !(height % 10000 == 0 && env.archivingFails))
  {
    hide TransferAll;
    assert height % 10000 == 0 ==> height == 1000 * (10 * (height / 10000));
  }

  datatype Update = Update(height: uint64, txs: seq<Transaction>, env: Environment)

  /** What an update leaves of the ledger. */
  function Updated(ledger: Ledger, update: Update): Ledger {
    if Verdict(ledger, update.height, update.txs, update.env) == Committed
    then TransferAll(ledger, update.txs).value
    else ledger
  }

  function Run(ledger: Ledger, updates: seq<Update>): Ledger {
    if updates == [] then ledger else Updated(Run(ledger, updates[..|updates| - 1]), updates[|updates| - 1])
  }

  /** The transactions of the updates that commit, in order. */
  function CommittedTransactions(ledger: Ledger, updates: seq<Update>): seq<Transaction> {
    if updates == [] then []
    else
      var front, last := updates[..|updates| - 1], updates[|updates| - 1];
      var before := CommittedTransactions(ledger, front);
      if Verdict(Run(ledger, front), last.height, last.txs, last.env) == Committed then before + last.txs else before
  }

  /** Atomicity over runs: the ledger is as if the committed transactions alone had been made, in one go. */
  lemma {:induction false} RunIsOneTransfer(ledger: Ledger, updates: seq<Update>)
    ensures TransferAll(ledger, CommittedTransactions(ledger, updates)) == Some(Run(ledger, updates))
  {
    if updates != [] {
      var front, last := updates[..|updates| - 1], updates[|updates| - 1];
      RunIsOneTransfer(ledger, front);
      TransferAllConcat(ledger, CommittedTransactions(ledger, front), last.txs);
    }
  }

  /** Below 2^64 no run of blocks, committed or not, changes the supply. */
  lemma {:induction false} RunConservesSupply(ledger: Ledger, updates: seq<Update>)
    requires Total(ledger) < U64
    ensures Total(Run(ledger, updates)) == Total(ledger)
  {
    RunIsOneTransfer(ledger, updates);
    SupplyConservation(ledger, CommittedTransactions(ledger, updates));
  }

  /** No (sender, nonce) pair is applied twice over a run that commits at most 2^64 transactions. */
  lemma {:induction false} RunNeverReplays(ledger: Ledger, updates: seq<Update>, i: nat, j: nat)
    requires i < j < |CommittedTransactions(ledger, updates)| <= U64
    ensures var txs := CommittedTransactions(ledger, updates);
            (txs[i].from, txs[i].nonce) != (txs[j].from, txs[j].nonce)
  {
    RunIsOneTransfer(ledger, updates);
    var txs := CommittedTransactions(ledger, updates);
    if txs[i].from == txs[j].from {
      NoReplay(ledger, txs, i, j);
    }
  }

  /** Over a run every nonce counts the committed transactions of its account. */
  lemma {:induction false} RunCountsNonces(ledger: Ledger, updates: seq<Update>, a: Address)
    ensures NonceOf(Run(ledger, updates), a)
         == Wrap64(NonceOf(ledger, a) + Sent(CommittedTransactions(ledger, updates), a))
  {
    RunIsOneTransfer(ledger, updates);
    NonceCountsSent(ledger, CommittedTransactions(ledger, updates), a);
  }
}
