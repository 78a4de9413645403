/**
 What the ledger does not enforce (sequencer/src/mempool.rs, trace.rs): a nonce is compared
 when a transaction is admitted and not when it is executed, the supply cap and the asset of
 a transaction are not looked at by execution, and burns ignore the frozen flag.  Each gap
 comes with an input and, where there is one, the condition that closes it.
 */
module LedgerLimits {
  import opened Bytes
  import opened Hashing
  import opened Encodings
  import opened AccountRecord
  import opened Executor
  import opened Ledger

  // ----- one signature, several payments -----

  function NonceAt(m: Accounts, key: PublicKey): nat { Nonce(AccountOf(m, key)) }

  /** A carried-out transaction steps the nonce of a transfer's sender, unless it is also the recipient, and no other. */
  lemma NonceEffect(m: Accounts, tx: SignedTx, epoch: u32, key: PublicKey)
    requires WellKeyed(m) && ApplyTx(m, tx, epoch).Applied? && ApplyTx(m, tx, epoch).success
    ensures NonceAt(ApplyTx(m, tx, epoch).accounts, key)
         == if tx.kind.Transfer? && key == tx.signer && tx.recipient != Some(key) then NextNonce(AccountOf(m, key)) else NonceAt(m, key)
  {
    match tx.kind {
      case Transfer => TransferNonce(m, tx, epoch, key);
      case Mint =>
        MintEffect(m, tx, epoch);
        CreditKeepsNonce(AccountOf(m, TargetOf(tx)), tx.amount, epoch);
        hide ApplyTx;
        PutOther(m, Credited(AccountOf(m, TargetOf(tx)), TxAmount(tx), epoch), key);
      case Burn =>
        BurnEffect(m, tx, epoch);
        BurnedMeans(AccountOf(m, tx.signer), TxAmount(tx), epoch);
        hide ApplyTx;
        PutOther(m, Burned(AccountOf(m, tx.signer), TxAmount(tx), epoch), key);
      case Freeze =>
        FreezeEffect(m, tx, epoch);
        SetFrozenKeepsBalance(AccountOf(m, TargetOf(tx)), tx.flag != 0);
        hide ApplyTx;
        PutOther(m, WithFrozen(AccountOf(m, TargetOf(tx)), tx.flag != 0), key);
    }
  }

  lemma CreditKeepsNonce(a: Record, amount: Bytes16, epoch: u32)
    ensures Nonce(Credited(a, ValueLE(amount), epoch)) == Nonce(a) && Pubkey(Credited(a, ValueLE(amount), epoch)) == Pubkey(a)
  {
    hide Credited;
    AmountBound(amount);
    CreditedMeans(a, ValueLE(amount), epoch);
  }

  lemma TransferNonce(m: Accounts, tx: SignedTx, epoch: u32, key: PublicKey)
    requires WellKeyed(m) && tx.kind.Transfer? && ApplyTx(m, tx, epoch).Applied? && ApplyTx(m, tx, epoch).success
    ensures NonceAt(ApplyTx(m, tx, epoch).accounts, key)
         == if key == tx.signer && tx.recipient != Some(key) then NextNonce(AccountOf(m, key)) else NonceAt(m, key)
    ensures key == tx.signer && tx.recipient != Some(key) ==>
              && BalanceAt(ApplyTx(m, tx, epoch).accounts, key) == BalanceAt(m, key) - TxAmount(tx)
              && !Frozen(AccountOf(ApplyTx(m, tx, epoch).accounts, key))
  {
    TransferEffect(m, tx, epoch);
    hide ApplyTx, Debited, Credited;
    BalanceOfAccount(m, tx.signer);
    var from, to := AccountOf(m, tx.signer), AccountOf(m, tx.recipient.value);
    DebitedMeans(from, TxAmount(tx), epoch);
    CreditKeepsNonce(to, tx.amount, epoch);
    var a, b := Debited(from, TxAmount(tx), epoch), Credited(to, TxAmount(tx), epoch);
    PutOther(m, a, key);
    PutOther(PutAccount(m, a), b, key);
  }

  /** A transfer that was admitted once is admitted again exactly while its sender's nonce is one below it and the sender is not frozen. */
  lemma ReadmittedExactly(ver: Verifier, m: Accounts, m': Accounts, issuer: Option<IssuerRecord>, tx: SignedTx)
    requires tx.kind.Transfer? && Validate(ver, m, issuer, tx) == Admitted
    ensures Validate(ver, m', issuer, tx) == Admitted
       <==> tx.nonce == NextNonce(AccountOf(m', tx.signer)) && !Frozen(AccountOf(m', tx.signer))
  {
  }

  /** Once it is executed at the nonce it was admitted at, it is not admitted again; if it went to its own sender, it is. */
  lemma ReadmittedAfter(ver: Verifier, m: Accounts, issuer: Option<IssuerRecord>, tx: SignedTx, epoch: u32)
    requires WellKeyed(m) && tx.kind.Transfer? && Validate(ver, m, issuer, tx) == Admitted
    requires ApplyTx(m, tx, epoch).Applied? && ApplyTx(m, tx, epoch).success
    ensures tx.recipient != Some(tx.signer) ==> Validate(ver, ApplyTx(m, tx, epoch).accounts, issuer, tx) != Admitted
    ensures tx.recipient == Some(tx.signer) && BalanceAt(m, tx.signer) + TxAmount(tx) < TWO127 ==>
              Validate(ver, ApplyTx(m, tx, epoch).accounts, issuer, tx) == Admitted
  {
    hide ApplyTx, Validate, Debited, Credited, AccountOf, WellKeyed, TxAmount, Balance, Frozen;
    var m' := ApplyTx(m, tx, epoch).accounts;
    TransferNonce(m, tx, epoch, tx.signer);
    ReadmittedExactly(ver, m, m, issuer, tx);
    ReadmittedExactly(ver, m, m', issuer, tx);
    if tx.recipient == Some(tx.signer) {
      TransferEffect(m, tx, epoch);
      BalanceOfAccount(m, tx.signer);
      var a := Debited(AccountOf(m, tx.signer), TxAmount(tx), epoch);
      PutOther(PutAccount(m, a), Credited(AccountOf(m, tx.signer), TxAmount(tx), epoch), tx.signer);
    }
  }

  /** Submit a transfer twice, then execute twice. */
  function Twice(tx: SignedTx, epoch: u32): seq<Event> {
    [] + [Ingress(tx)] + [Ingress(tx)] + [Event.Execute(epoch)] + [Event.Execute(epoch)]
  }

  lemma RunMore(h: HashFn, ver: Verifier, capacity: nat, s: State, evs: seq<Event>, ev: Event)
    ensures Run(h, ver, capacity, s, evs + [ev]) == Next(h, ver, capacity, Run(h, ver, capacity, s, evs), ev)
  {
    assert (evs + [ev])[..|evs|] == evs;
  }

  lemma IngressNext(h: HashFn, ver: Verifier, capacity: nat, s: State, tx: SignedTx)
    requires |s.queue| < capacity && Validate(ver, s.accounts, LookupIssuer(h, s.registry, tx.assetId), tx) == Admitted
    ensures Next(h, ver, capacity, s, Ingress(tx)) == s.(queue := s.queue + [tx])
  {
  }

  lemma ExecuteNext(h: HashFn, ver: Verifier, capacity: nat, s: State, tx: SignedTx, rest: seq<SignedTx>, epoch: u32)
    requires s.queue == [tx] + rest
    ensures var r, s' := ApplyTx(s.accounts, tx, epoch), Next(h, ver, capacity, s, Event.Execute(epoch));
            && s'.queue == rest
            && (if r.Applied? && r.success then s'.accounts == r.accounts && s'.executed == s.executed + [tx]
                else s'.accounts == s.accounts && s'.executed == s.executed)
  {
    hide ApplyTx;
    assert s.queue[1..] == rest;
  }

  /** A covered transfer submitted twice before it is executed is paid twice, exactly when the balance covers it twice. */
  lemma PaidTwice(h: HashFn, ver: Verifier, capacity: nat, s: State, tx: SignedTx, epoch: u32)
    requires WellKeyed(s.accounts) && s.queue == [] && capacity >= 2 && tx.kind.Transfer?
    requires tx.recipient.Some? && tx.recipient.value != tx.signer && TxAmount(tx) <= BalanceAt(s.accounts, tx.signer)
    requires Validate(ver, s.accounts, LookupIssuer(h, s.registry, tx.assetId), tx) == Admitted
    ensures Run(h, ver, capacity, s, Twice(tx, epoch)).executed
         == s.executed + if 2 * TxAmount(tx) <= BalanceAt(s.accounts, tx.signer) then [tx, tx] else [tx]
  {
    hide Next, Run, ApplyTx, Validate, AccountOf, BalanceAt, WellKeyed, TxAmount, LookupIssuer;
    var e, t2 := Event.Execute(epoch), [] + [Ingress(tx)] + [Ingress(tx)];
    RunMore(h, ver, capacity, s, t2, e);
    RunMore(h, ver, capacity, s, t2 + [e], e);
    TwiceQueued(h, ver, capacity, s, tx);
    AdmittedIsUnfrozen(ver, s.accounts, LookupIssuer(h, s.registry, tx.assetId), tx);
    TwiceExecuted(h, ver, capacity, s.(queue := [tx, tx]), tx, epoch);
  }

  lemma TwiceQueued(h: HashFn, ver: Verifier, capacity: nat, s: State, tx: SignedTx)
    requires s.queue == [] && capacity >= 2 && Validate(ver, s.accounts, LookupIssuer(h, s.registry, tx.assetId), tx) == Admitted
    ensures Run(h, ver, capacity, s, [] + [Ingress(tx)] + [Ingress(tx)]) == s.(queue := [tx, tx])
  {
    hide Next, Run, Validate, LookupIssuer;
    RunMore(h, ver, capacity, s, [], Ingress(tx));
    RunMore(h, ver, capacity, s, [] + [Ingress(tx)], Ingress(tx));
    RunNothing(h, ver, capacity, s);
    IngressNext(h, ver, capacity, s, tx);
    var s1 := s.(queue := s.queue + [tx]);
    IngressNext(h, ver, capacity, s1, tx);
    assert s1.queue + [tx] == [tx, tx];
  }

  lemma TwiceExecuted(h: HashFn, ver: Verifier, capacity: nat, s: State, tx: SignedTx, epoch: u32)
    requires WellKeyed(s.accounts) && s.queue == [tx, tx] && tx.kind.Transfer? && tx.recipient.Some? && tx.recipient.value != tx.signer
    requires TxAmount(tx) <= BalanceAt(s.accounts, tx.signer) && !Frozen(AccountOf(s.accounts, tx.signer))
    ensures var e := Event.Execute(epoch);
            Next(h, ver, capacity, Next(h, ver, capacity, s, e), e).executed
              == s.executed + if 2 * TxAmount(tx) <= BalanceAt(s.accounts, tx.signer) then [tx, tx] else [tx]
  {
    hide Next, ApplyTx, AccountOf, BalanceAt, WellKeyed, TxAmount;
    CoveredExactly(s.accounts, tx, epoch);
    assert s.queue == [tx] + [tx] && [tx] == [tx] + [];
    ExecuteNext(h, ver, capacity, s, tx, [tx], epoch);
    SecondTime(s.accounts, tx, epoch);
    ExecuteNext(h, ver, capacity, Next(h, ver, capacity, s, Event.Execute(epoch)), tx, [], epoch);
    assert s.executed + [tx] + [tx] == s.executed + [tx, tx];
  }

  lemma RunNothing(h: HashFn, ver: Verifier, capacity: nat, s: State)
    ensures Run(h, ver, capacity, s, []) == s
  {
  }

  lemma AdmittedIsUnfrozen(ver: Verifier, m: Accounts, issuer: Option<IssuerRecord>, tx: SignedTx)
    requires tx.kind.Transfer? && Validate(ver, m, issuer, tx) == Admitted
    ensures !Frozen(AccountOf(m, tx.signer))
  {
  }

  lemma SecondTime(m: Accounts, tx: SignedTx, epoch: u32)
    requires WellKeyed(m) && tx.kind.Transfer? && tx.recipient.Some? && tx.recipient.value != tx.signer
    requires ApplyTx(m, tx, epoch).Applied? && ApplyTx(m, tx, epoch).success
    ensures var r := ApplyTx(ApplyTx(m, tx, epoch).accounts, tx, epoch);
            r.Applied? && (r.success <==> 2 * TxAmount(tx) <= BalanceAt(m, tx.signer))
  {
    TransferNonce(m, tx, epoch, tx.signer);
    CoveredExactly(ApplyTx(m, tx, epoch).accounts, tx, epoch);
  }

  lemma CoveredExactly(m: Accounts, tx: SignedTx, epoch: u32)
    requires tx.kind.Transfer? && tx.recipient.Some?
    ensures var r := ApplyTx(m, tx, epoch);
            r.Applied? && (r.success <==> !Frozen(AccountOf(m, tx.signer)) && TxAmount(tx) <= BalanceAt(m, tx.signer))
  {
    BalanceOfAccount(m, tx.signer);
  }

  // --- the check that would close the gap ---

  /** A transfer that is about to be executed has two ends, and its nonce is the next one of its sender. */
  ghost predicate InTurn(s: State, ev: Event) {
    var tx := Executing(s, ev);
    tx.Some? && tx.value.kind.Transfer? ==> TwoEnded(tx.value) && tx.value.nonce == NonceAt(s.accounts, tx.value.signer) + 1
  }

  predicate SameSender(tx: SignedTx, tx': SignedTx) {
    tx.kind.Transfer? && tx'.kind.Transfer? && tx.signer == tx'.signer
  }

  /** Executed transfers are within their senders' nonces, and those of one sender have increasing nonces. */
  ghost predicate Ordered(s: State) {
    && (forall i :: 0 <= i < |s.executed| && s.executed[i].kind.Transfer? ==>
          s.executed[i].nonce <= NonceAt(s.accounts, s.executed[i].signer))
    && (forall i, j :: 0 <= i < j < |s.executed| && SameSender(s.executed[i], s.executed[j]) ==>
          s.executed[i].nonce < s.executed[j].nonce)
  }

  lemma StepOrdered(h: HashFn, ver: Verifier, capacity: nat, s: State, ev: Event)
    requires WellKeyed(s.accounts) && Ordered(s) && InTurn(s, ev)
    ensures Ordered(Next(h, ver, capacity, s, ev))
  {
    hide Next, ApplyTx, NonceAt, WellKeyed, AccountOf;
    var s' := Next(h, ver, capacity, s, ev);
    if s'.executed != s.executed {
      ExecutedStep(h, ver, capacity, s, ev);
      var tx := s.queue[0];
      forall i | 0 <= i < |s'.executed| && s'.executed[i].kind.Transfer?
        ensures s'.executed[i].nonce <= NonceAt(s'.accounts, s'.executed[i].signer)
        ensures i < |s.executed| && tx.kind.Transfer? && s'.executed[i].signer == tx.signer ==> s'.executed[i].nonce < tx.nonce
      {
        NonceEffect(s.accounts, tx, ev.epoch, s'.executed[i].signer);
        NoWrap(s.accounts, tx);
      }
    } else {
      SameAccounts(h, ver, capacity, s, ev);
    }
  }

  lemma ExecutedStep(h: HashFn, ver: Verifier, capacity: nat, s: State, ev: Event)
    requires Next(h, ver, capacity, s, ev).executed != s.executed
    ensures ev.Execute? && s.queue != []
    ensures var s', r := Next(h, ver, capacity, s, ev), ApplyTx(s.accounts, s.queue[0], ev.epoch);
            r.Applied? && r.success && s'.accounts == r.accounts && s'.executed == s.executed + [s.queue[0]]
  {
    hide ApplyTx, Validate;
  }

  lemma NoWrap(m: Accounts, tx: SignedTx)
    ensures tx.nonce == NonceAt(m, tx.signer) + 1 ==> NextNonce(AccountOf(m, tx.signer)) == tx.nonce
  {
  }

  lemma SameAccounts(h: HashFn, ver: Verifier, capacity: nat, s: State, ev: Event)
    requires Next(h, ver, capacity, s, ev).executed == s.executed
    ensures Next(h, ver, capacity, s, ev).accounts == s.accounts
  {
    hide ApplyTx, Validate;
  }

  lemma OrderedAtStart(h: HashFn, ver: Verifier, capacity: nat, s: State)
    requires Start(h, s)
    ensures Ordered(Run(h, ver, capacity, s, []))
  {
  }

  /** If every transfer is executed in turn, then no two executed transfers of one sender share a nonce; so none is paid twice. */
  lemma {:induction false} PaidOnce(h: HashFn, ver: Verifier, capacity: nat, s: State, evs: seq<Event>, n: nat)
    requires Start(h, s) && n <= |evs|
    requires forall i: nat | i < n :: InTurn(Run(h, ver, capacity, s, evs[..i]), evs[i])
    ensures Ordered(Run(h, ver, capacity, s, evs[..n]))
  {
    hide Ordered, Run, Next, InTurn, Balanced, WellKeyed;
    if n == 0 {
      assert evs[..0] == [];
      OrderedAtStart(h, ver, capacity, s);
    } else {
      PaidOnce(h, ver, capacity, s, evs, n - 1);
      RunStep(h, ver, capacity, s, evs, n - 1);
      RunBalances(h, ver, capacity, s, evs[..n - 1]);
      StepOrdered(h, ver, capacity, Run(h, ver, capacity, s, evs[..n - 1]), evs[n - 1]);
    }
  }

  // ----- caps and assets -----

  /** Admission does not depend on the supply cap, and execution does not depend on the asset. */
  lemma CapAndAssetUnread(ver: Verifier, m: Accounts, rec: IssuerRecord, cap: Bytes16, tx: SignedTx, asset: u32, epoch: u32)
    ensures Validate(ver, m, Some(rec.(maxSupply := cap)), tx) == Validate(ver, m, Some(rec), tx)
    ensures ApplyTx(m, tx.(assetId := asset), epoch) == ApplyTx(m, tx, epoch)
  {
    hide Native, PutAll, Canonical, AccountOf;
  }

  /** With a cap of 1 and a supply of 1, a mint of 1 is admitted and makes the supply 2. */
  lemma MintAboveCap(ver: Verifier, rec: IssuerRecord, key: PublicKey, epoch: u32)
    requires rec.authority == key && rec.mintEnabled && ValueLE(rec.maxSupply) == 1
    requires Welcome(ver, rec, Plainly(Mint, key, 0, None))
    ensures var m, tx := PutAccount(map[], Holding(key, 1)), Plainly(Mint, key, 0, None);
            var r := ApplyTx(m, tx, epoch);
            && Validate(ver, m, Some(rec), tx) == Admitted && r.Applied? && r.success
            && Supply(m) == ValueLE(rec.maxSupply) && Supply(r.accounts) == 2
  {
    hide ApplyTx, Holding, Canonical, TxAmount, ToLE, Supply;
    var m, tx := PutAccount(map[], Holding(key, 1)), Plainly(Mint, key, 0, None);
    NoSupply();
    HoldingMeans(key, 1);
    OneUnit(Mint, key, 0, None);
    SupplyPut(map[], Holding(key, 1));
    PutOther(map[], Holding(key, 1), key);
    MintIsCarriedOut(m, tx, epoch);
    MintAdds(m, tx, epoch);
  }

  /** What was minted under one asset is admitted and paid under another. */
  lemma AssetsMix(ver: Verifier, rec1: IssuerRecord, rec2: IssuerRecord, key: PublicKey, to: PublicKey, epoch: u32)
    requires rec1.assetId == 1 && rec1.authority == key && rec1.mintEnabled && rec2.assetId == 2 && to != key
    requires Welcome(ver, rec1, Plainly(Mint, key, 0, None).(assetId := 1))
    requires Welcome(ver, rec2, Plainly(Transfer, key, 1, Some(to)).(assetId := 2))
    ensures var mint, pay := Plainly(Mint, key, 0, None).(assetId := 1), Plainly(Transfer, key, 1, Some(to)).(assetId := 2);
            var r1 := ApplyTx(map[], mint, epoch);
            && Validate(ver, map[], Some(rec1), mint) == Admitted && r1.Applied? && r1.success
            && Validate(ver, r1.accounts, Some(rec2), pay) == Admitted
            && var r2 := ApplyTx(r1.accounts, pay, epoch);
               r2.Applied? && r2.success && BalanceAt(r2.accounts, to) == 1
  {
    hide Canonical, TxAmount, ToLE, Supply, ApplyTx, Validate, Credited, Debited, AccountOf, Frozen, Balance, Welcome, NextNonce;
    var mint, pay := Plainly(Mint, key, 0, None).(assetId := 1), Plainly(Transfer, key, 1, Some(to)).(assetId := 2);
    UnitAmount(mint);
    UnitAmount(pay);
    PlainMintAdmitted(ver, map[], rec1, mint);
    Minted(mint, key, epoch);
    var m1 := ApplyTx(map[], mint, epoch).accounts;
    PlainTransferAdmitted(ver, m1, rec2, pay);
    CoveredIsCarriedOut(m1, pay, epoch);
    Received(m1, pay, epoch);
  }

  lemma PlainMintAdmitted(ver: Verifier, m: Accounts, rec: IssuerRecord, tx: SignedTx)
    requires Welcome(ver, rec, tx) && tx.kind.Mint? && tx.signer == rec.authority && rec.mintEnabled
    ensures Validate(ver, m, Some(rec), tx) == Admitted
  {
  }

  /** One unit minted to the signer on an empty ledger. */
  lemma Minted(mint: SignedTx, key: PublicKey, epoch: u32)
    requires mint.kind.Mint? && mint.signer == key && mint.recipient.None? && TxAmount(mint) == 1
    ensures var r := ApplyTx(map[], mint, epoch);
            && r.Applied? && r.success && WellKeyed(r.accounts) && BalanceAt(r.accounts, key) == 1
            && !Frozen(AccountOf(r.accounts, key)) && NextNonce(AccountOf(r.accounts, key)) == 1
            && forall other: PublicKey :: other != key ==> BalanceAt(r.accounts, other) == 0
  {
    hide ApplyTx, TxAmount, Credited, Frozen, Balance;
    FreshNonce(key);
    MintIsCarriedOut(map[], mint, epoch);
    MintEffect(map[], mint, epoch);
    NonceEffect(map[], mint, epoch, key);
    PutOther(map[], Credited(AccountOf(map[], key), 1, epoch), key);
  }

  /** What a transfer between two accounts adds to an empty recipient. */
  lemma Received(m: Accounts, tx: SignedTx, epoch: u32)
    requires WellKeyed(m) && tx.kind.Transfer? && ApplyTx(m, tx, epoch).Applied? && ApplyTx(m, tx, epoch).success
    requires tx.recipient.Some? && tx.recipient.value != tx.signer && BalanceAt(m, tx.recipient.value) == 0
    ensures BalanceAt(ApplyTx(m, tx, epoch).accounts, tx.recipient.value) == TxAmount(tx)
  {
    hide ApplyTx, TxAmount, Credited, Debited, Frozen, Balance, AccountOf;
    TransferEffect(m, tx, epoch);
    BalanceOfAccount(m, tx.signer);
    BalanceBound(m, tx.signer);
    var a := Debited(AccountOf(m, tx.signer), TxAmount(tx), epoch);
    PutOther(PutAccount(m, a), Credited(AccountOf(m, tx.recipient.value), TxAmount(tx), epoch), tx.recipient.value);
  }

  lemma UnitAmount(tx: SignedTx)
    requires tx.amount == ToLE(1, 16)
    ensures TxAmount(tx) == 1
  {
    PowValues();
    ValueToLE(1, 16);
  }

  // ----- burns of frozen accounts -----

  /** A covered burn is carried out and lowers the balance, frozen or not. */
  lemma BurnIgnoresFreeze(m: Accounts, tx: SignedTx, epoch: u32)
    requires WellKeyed(m) && tx.kind.Burn? && TxAmount(tx) <= BalanceAt(m, tx.signer)
    ensures var r := ApplyTx(m, tx, epoch);
            && r.Applied? && r.success && BalanceAt(r.accounts, tx.signer) == BalanceAt(m, tx.signer) - TxAmount(tx)
            && Frozen(AccountOf(r.accounts, tx.signer)) == Frozen(AccountOf(m, tx.signer))
  {
    BalanceOfAccount(m, tx.signer);
    assert ApplyTx(m, tx, epoch).Applied? && ApplyTx(m, tx, epoch).success;
    BurnEffect(m, tx, epoch);
    hide ApplyTx;
    PutOther(m, Burned(AccountOf(m, tx.signer), TxAmount(tx), epoch), tx.signer);
  }
}
