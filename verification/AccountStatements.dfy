/**
 Statements of account (sequencer/src/node.rs, trace.rs): what one transaction does to every
 account, said in the transaction's own fields, and what a whole run leaves in an account:
 its balance, nonce and flag are those that the executed transactions add up to.
 */
module AccountStatements {
  import opened Bytes
  import opened Hashing
  import opened Encodings
  import opened AccountRecord
  import opened Executor
  import opened Ledger
  import opened LedgerLimits

  // ----- whom a transaction is about -----

  predicate NamedOrSigner(tx: SignedTx, key: PublicKey) {
    tx.recipient == Some(key) || (tx.recipient.None? && tx.signer == key)
  }

  predicate Credits(tx: SignedTx, key: PublicKey) {
    (tx.kind.Transfer? && tx.recipient == Some(key)) || (tx.kind.Mint? && NamedOrSigner(tx, key))
  }

  /** A transfer that comes back to its sender only credits it: the second record is written over the first. */
  predicate Debits(tx: SignedTx, key: PublicKey) {
    tx.signer == key && (tx.kind.Burn? || (tx.kind.Transfer? && tx.recipient != Some(key)))
  }

  predicate Spends(tx: SignedTx, key: PublicKey) { tx.kind.Transfer? && Debits(tx, key) }

  predicate Marks(tx: SignedTx, key: PublicKey) { tx.kind.Freeze? && NamedOrSigner(tx, key) }

  function Gain(tx: SignedTx, key: PublicKey): nat { if Credits(tx, key) then TxAmount(tx) else 0 }
  function Loss(tx: SignedTx, key: PublicKey): nat { if Debits(tx, key) then TxAmount(tx) else 0 }

  /** The credit reaches the flag bit. */
  predicate Spills(m: Accounts, tx: SignedTx, key: PublicKey) {
    Credits(tx, key) && BalanceAt(m, key) + TxAmount(tx) >= TWO127
  }

  // ----- one transaction -----

  /** Which transactions are carried out, in terms of balances and flags. */
  lemma CarriedOutExactly(m: Accounts, tx: SignedTx, epoch: u32)
    ensures var r := ApplyTx(m, tx, epoch);
            && (r.Refused? <==> tx.kind.MultiAsset? || (tx.kind.Transfer? && tx.recipient.None?))
            && (r.Applied? ==> match tx.kind
                  case Transfer => r.success <==> !Frozen(AccountOf(m, tx.signer)) && TxAmount(tx) <= BalanceAt(m, tx.signer)
                  case Mint => r.success <==> forall key: PublicKey :: Credits(tx, key) ==> BalanceAt(m, key) + TxAmount(tx) < TWO128
                  case Burn => r.success <==> TxAmount(tx) <= BalanceAt(m, tx.signer)
                  case Freeze => r.success
                  case MultiAsset => false)
            && (r.Applied? && !r.success ==> r.accounts == m)
  {
    hide Balance, Frozen, AccountOf, BalanceAt, ValueLE;
    BalanceOfAccount(m, tx.signer);
    if tx.kind.Mint? {
      var key := if tx.recipient.Some? then tx.recipient.value else tx.signer;
      BalanceOfAccount(m, key);
      assert Credits(tx, key);
    }
  }

  /** What a carried-out transaction leaves in every account. */
  ghost predicate Effect(m: Accounts, m': Accounts, tx: SignedTx, epoch: u32, key: PublicKey) {
    var a, b := AccountOf(m, key), AccountOf(m', key);
    && BalanceAt(m', key) + Loss(tx, key) + (if Spills(m, tx, key) then TWO127 else 0) == BalanceAt(m, key) + Gain(tx, key)
    && Nonce(b) == (if Spends(tx, key) then (Nonce(a) + 1) % TWO64 else Nonce(a))
    && Frozen(b) == (if Marks(tx, key) then tx.flag != 0 else Frozen(a) || Spills(m, tx, key))
    && LastActive(b) == (if Credits(tx, key) || Debits(tx, key) then epoch else LastActive(a))
    && (!Credits(tx, key) && !Debits(tx, key) && !Marks(tx, key) ==> b == a)
  }

  lemma CreditedFully(a: Record, amount: nat, epoch: u32)
    requires Balance(a) + amount < TWO128
    ensures var b := Credited(a, amount, epoch);
            && Balance(b) + (if Balance(a) + amount >= TWO127 then TWO127 else 0) == Balance(a) + amount
            && Frozen(b) == (Frozen(a) || Balance(a) + amount >= TWO127) && Nonce(b) == Nonce(a) && LastActive(b) == epoch
            && Pubkey(b) == Pubkey(a)
  {
    hide Credited, Balance, Frozen;
    CreditedMeans(a, amount, epoch);
  }

  lemma OnTransfer(m: Accounts, tx: SignedTx, epoch: u32, key: PublicKey)
    requires WellKeyed(m) && tx.kind.Transfer? && ApplyTx(m, tx, epoch).Applied? && ApplyTx(m, tx, epoch).success
    ensures Effect(m, ApplyTx(m, tx, epoch).accounts, tx, epoch, key)
  {
    hide ApplyTx, Debited, Credited, Balance, Frozen, TxAmount, AccountOf, BalanceAt, WellKeyed;
    TransferEffect(m, tx, epoch);
    BalanceOfAccount(m, tx.signer);
    BalanceOfAccount(m, tx.recipient.value);
    BalanceBound(m, tx.signer);
    BalanceBound(m, tx.recipient.value);
    var from, to := AccountOf(m, tx.signer), AccountOf(m, tx.recipient.value);
    DebitedMeans(from, TxAmount(tx), epoch);
    CreditedFully(to, TxAmount(tx), epoch);
    var a, b := Debited(from, TxAmount(tx), epoch), Credited(to, TxAmount(tx), epoch);
    PutOther(m, a, key);
    PutOther(PutAccount(m, a), b, key);
  }

  lemma OnMint(m: Accounts, tx: SignedTx, epoch: u32, key: PublicKey)
    requires WellKeyed(m) && tx.kind.Mint? && ApplyTx(m, tx, epoch).Applied? && ApplyTx(m, tx, epoch).success
    ensures Effect(m, ApplyTx(m, tx, epoch).accounts, tx, epoch, key)
  {
    hide ApplyTx, Credited, Balance, Frozen, TxAmount, AccountOf, BalanceAt, WellKeyed;
    var who := if tx.recipient.Some? then tx.recipient.value else tx.signer;
    CarriedOutExactly(m, tx, epoch);
    assert Credits(tx, who);
    MintEffect(m, tx, epoch);
    BalanceOfAccount(m, who);
    CreditedFully(AccountOf(m, who), TxAmount(tx), epoch);
    PutOther(m, Credited(AccountOf(m, who), TxAmount(tx), epoch), key);
  }

  lemma OnBurn(m: Accounts, tx: SignedTx, epoch: u32, key: PublicKey)
    requires WellKeyed(m) && tx.kind.Burn? && ApplyTx(m, tx, epoch).Applied? && ApplyTx(m, tx, epoch).success
    ensures Effect(m, ApplyTx(m, tx, epoch).accounts, tx, epoch, key)
  {
    hide ApplyTx, Burned, Balance, Frozen, TxAmount, AccountOf, BalanceAt, WellKeyed;
    BurnEffect(m, tx, epoch);
    BurnedMeans(AccountOf(m, tx.signer), TxAmount(tx), epoch);
    PutOther(m, Burned(AccountOf(m, tx.signer), TxAmount(tx), epoch), key);
  }

  lemma OnFreeze(m: Accounts, tx: SignedTx, epoch: u32, key: PublicKey)
    requires WellKeyed(m) && tx.kind.Freeze? && ApplyTx(m, tx, epoch).Applied? && ApplyTx(m, tx, epoch).success
    ensures Effect(m, ApplyTx(m, tx, epoch).accounts, tx, epoch, key)
  {
    hide ApplyTx, WithFrozen, Balance, Frozen, TxAmount, AccountOf, BalanceAt, WellKeyed;
    var who := if tx.recipient.Some? then tx.recipient.value else tx.signer;
    FreezeEffect(m, tx, epoch);
    SetFrozenKeepsBalance(AccountOf(m, who), tx.flag != 0);
    PutOther(m, WithFrozen(AccountOf(m, who), tx.flag != 0), key);
  }

  /**
   A mint reaches the recipient it names, or its signer when it names none; so does a freeze;
   a transfer takes from its signer and reaches its recipient; a burn takes from its signer;
   and no other account changes at all.
   */
  lemma EffectOnEach(m: Accounts, tx: SignedTx, epoch: u32, key: PublicKey)
    requires WellKeyed(m) && ApplyTx(m, tx, epoch).Applied? && ApplyTx(m, tx, epoch).success
    ensures Effect(m, ApplyTx(m, tx, epoch).accounts, tx, epoch, key)
  {
    hide Effect, WellKeyed;
    match tx.kind {
      case Transfer => OnTransfer(m, tx, epoch, key);
      case Mint => OnMint(m, tx, epoch, key);
      case Burn => OnBurn(m, tx, epoch, key);
      case Freeze => OnFreeze(m, tx, epoch, key);
    }
  }

  // ----- a whole run -----

  function Gains(txs: seq<SignedTx>, key: PublicKey): nat {
    if txs == [] then 0 else Gains(txs[..|txs| - 1], key) + Gain(txs[|txs| - 1], key)
  }

  function Losses(txs: seq<SignedTx>, key: PublicKey): nat {
    if txs == [] then 0 else Losses(txs[..|txs| - 1], key) + Loss(txs[|txs| - 1], key)
  }

  function Spent(txs: seq<SignedTx>, key: PublicKey): nat {
    if txs == [] then 0 else Spent(txs[..|txs| - 1], key) + if Spends(txs[|txs| - 1], key) then 1 else 0
  }

  /** The flag that the last freeze or unfreeze of the account set, if there was one. */
  function LastMark(txs: seq<SignedTx>, key: PublicKey, initially: bool): bool {
    if txs == [] then initially
    else if Marks(txs[|txs| - 1], key) then txs[|txs| - 1].flag != 0
    else LastMark(txs[..|txs| - 1], key, initially)
  }

  /** How often a credit of the account reached the flag bit during the run. */
  ghost function Spillings(h: HashFn, ver: Verifier, capacity: nat, s: State, evs: seq<Event>, key: PublicKey): nat {
    if evs == [] then 0
    else
      var p, ev := Run(h, ver, capacity, s, evs[..|evs| - 1]), evs[|evs| - 1];
      Spillings(h, ver, capacity, s, evs[..|evs| - 1], key)
        + if Next(h, ver, capacity, p, ev).executed != p.executed && p.queue != [] && Spills(p.accounts, p.queue[0], key) then 1 else 0
  }

  lemma Booked(txs: seq<SignedTx>, tx: SignedTx, key: PublicKey, initially: bool)
    ensures Gains(txs + [tx], key) == Gains(txs, key) + Gain(tx, key)
    ensures Losses(txs + [tx], key) == Losses(txs, key) + Loss(tx, key)
    ensures Spent(txs + [tx], key) == Spent(txs, key) + if Spends(tx, key) then 1 else 0
    ensures LastMark(txs + [tx], key, initially) == if Marks(tx, key) then tx.flag != 0 else LastMark(txs, key, initially)
  {
    assert (txs + [tx])[..|txs|] == txs;
  }

  /** Account `key` of `s` is what the executed transactions make of account `key` of `initial`, with `n` spilt credits. */
  ghost predicate Statement(initial: Accounts, s: State, key: PublicKey, n: nat) {
    && BalanceAt(s.accounts, key) + Losses(s.executed, key) + TWO127 * n == BalanceAt(initial, key) + Gains(s.executed, key)
    && NonceAt(s.accounts, key) == (NonceAt(initial, key) + Spent(s.executed, key)) % TWO64
    && (n == 0 ==> Frozen(AccountOf(s.accounts, key)) == LastMark(s.executed, key, Frozen(AccountOf(initial, key))))
  }

  lemma NonceStep(a: nat, b: nat)
    ensures ((a + b) % TWO64 + 1) % TWO64 == (a + b + 1) % TWO64
  {
  }

  lemma StatementGrows(initial: Accounts, s: State, s': State, tx: SignedTx, epoch: u32, key: PublicKey, n: nat)
    requires Statement(initial, s, key, n) && Effect(s.accounts, s'.accounts, tx, epoch, key) && s'.executed == s.executed + [tx]
    ensures Statement(initial, s', key, n + if Spills(s.accounts, tx, key) then 1 else 0)
  {
    hide AccountOf, BalanceAt, Frozen, Credits, Debits, Spends, Marks, TxAmount, Gains, Losses, Spent, LastMark, Gain, Loss, Nonce, LastActive;
    Booked(s.executed, tx, key, Frozen(AccountOf(initial, key)));
    NonceStep(NonceAt(initial, key), Spent(s.executed, key));
  }

  lemma StatementStarts(h: HashFn, s: State, key: PublicKey)
    requires Start(h, s)
    ensures Statement(s.accounts, s, key, 0)
  {
    hide BalanceAt, Frozen, AccountOf;
    ValueLEBound(AccountOf(s.accounts, key)[48..56]);
    PowValues();
  }

  /**
   Over every run and for every account: its balance is what it held, plus the executed
   transfers and mints that reach it, less the executed transfers and burns it signed, less
   2^127 for every credit that reached the flag bit; its nonce has advanced by the transfers
   it signed to others; and while no credit reached the flag bit, its flag is the one that
   the last executed freeze of it set.
   */
  lemma {:induction false} RunStatement(h: HashFn, ver: Verifier, capacity: nat, s: State, evs: seq<Event>, key: PublicKey)
    requires Start(h, s)
    ensures Statement(s.accounts, Run(h, ver, capacity, s, evs), key, Spillings(h, ver, capacity, s, evs, key))
    decreases |evs|
  {
    hide Statement, Next, Spills, ApplyTx, WellKeyed, Balanced;
    if evs == [] {
      StatementStarts(h, s, key);
    } else {
      var init, ev := evs[..|evs| - 1], evs[|evs| - 1];
      RunStatement(h, ver, capacity, s, init, key);
      RunBalances(h, ver, capacity, s, init);
      var p := Run(h, ver, capacity, s, init);
      var p', n := Next(h, ver, capacity, p, ev), Spillings(h, ver, capacity, s, init, key);
      if p'.executed != p.executed {
        ExecutedStep(h, ver, capacity, p, ev);
        EffectOnEach(p.accounts, p.queue[0], ev.epoch, key);
        StatementGrows(s.accounts, p, p', p.queue[0], ev.epoch, key, n);
      } else {
        SameAccounts(h, ver, capacity, p, ev);
        SameStatement(s.accounts, p, p', key, n);
      }
    }
  }

  lemma SameStatement(initial: Accounts, s: State, s': State, key: PublicKey, n: nat)
    requires Statement(initial, s, key, n) && s'.accounts == s.accounts && s'.executed == s.executed
    ensures Statement(initial, s', key, n)
  {
  }
}
