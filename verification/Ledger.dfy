/**
 Ledger runs: admission, execution and state writes (sequencer/src/mempool.rs, node.rs,
 state.rs, issuer_registry.rs) over the map of account records that the accounts tree holds.

 One executed transaction is one step, because a block may stop in the middle with the
 earlier transactions already written.
 */
module Ledger {
  import opened Bytes
  import opened Hashing
  import opened Encodings
  import opened AccountRecord
  import opened Executor

  type Accounts = map<Bytes, Bytes>

  // ----- accounts -----

  function AccountOf(m: Accounts, key: PublicKey): Record {
    if key in m && |m[key]| == 64 then m[key] else Fresh(key)
  }

  function PutAccount(m: Accounts, a: Record): Accounts {
    m[Pubkey(a) := a]
  }

  /** Every stored record is a record, under its own public key. */
  ghost predicate WellKeyed(m: Accounts) {
    forall k :: k in m ==> |k| == 32 && |m[k]| == 64 && m[k][0..32] == k
  }

  lemma AccountKey(m: Accounts, key: PublicKey)
    requires WellKeyed(m)
    ensures Pubkey(AccountOf(m, key)) == key
  {
    FreshIsEmpty(key);
  }

  function BalanceAt(m: Accounts, k: Bytes): nat {
    if k in m && |m[k]| == 64 then Balance(m[k]) else 0
  }

  lemma BalanceOfAccount(m: Accounts, key: PublicKey)
    ensures Balance(AccountOf(m, key)) == BalanceAt(m, key)
  {
    FreshIsEmpty(key);
  }

  /** The sum of all balances. */
  ghost function Supply(m: Accounts): nat
    decreases |m|
  {
    if m == map[] then 0 else
    var k :| k in m;
    BalanceAt(m, k) + Supply(m - {k})
  }

  lemma {:induction false} SupplySplit(m: Accounts, k: Bytes)
    requires k in m
    ensures Supply(m) == BalanceAt(m, k) + Supply(m - {k})
    decreases |m|
  {
    var p :| p in m && Supply(m) == BalanceAt(m, p) + Supply(m - {p});
    if p != k {
      SupplySplit(m - {p}, k);
      SupplySplit(m - {k}, p);
      assert m - {p} - {k} == m - {k} - {p};
      assert BalanceAt(m - {p}, k) == BalanceAt(m, k) && BalanceAt(m - {k}, p) == BalanceAt(m, p);
    }
  }

  /** Writing one record changes the supply by the change of that balance. */
  lemma SupplyPut(m: Accounts, a: Record)
    ensures Supply(PutAccount(m, a)) == Supply(m) - BalanceAt(m, Pubkey(a)) + Balance(a)
  {
    var k, m' := Pubkey(a), PutAccount(m, a);
    SupplySplit(m', k);
    assert m' - {k} == m - {k};
    if k in m {
      SupplySplit(m, k);
    } else {
      assert m - {k} == m;
    }
  }

  /** Two accounts together hold no more than the supply. */
  lemma TwoWithinSupply(m: Accounts, j: Bytes, k: Bytes)
    ensures BalanceAt(m, k) <= Supply(m)
    ensures j != k ==> BalanceAt(m, j) + BalanceAt(m, k) <= Supply(m)
  {
    if k in m {
      SupplySplit(m, k);
    }
    if j in m {
      SupplySplit(m, j);
      if k in m && j != k {
        SupplySplit(m - {k}, j);
      }
    }
  }

  // ----- one transaction -----

  datatype Applied = Refused | Applied(accounts: Accounts, success: bool)

  /** The account a mint, burn or freeze is about. */
  function TargetOf(tx: SignedTx): PublicKey
    requires tx.kind.Mint? || tx.kind.Burn? || tx.kind.Freeze?
  {
    if tx.kind.Burn? || tx.recipient.None? then tx.signer else tx.recipient.value
  }

  /** The records a transaction is executed on; none for a transfer to nobody and for multi-asset transactions. */
  function Assemble(m: Accounts, tx: SignedTx, epoch: u32): Option<Witness> {
    match tx.kind
    case MultiAsset => None
    case Transfer =>
      if tx.recipient.None? then None
      else Some(Witness(epoch, [AccountOf(m, tx.signer), AccountOf(m, tx.recipient.value)], tx.amount, tx.flag))
    case _ => Some(Witness(epoch, [AccountOf(m, TargetOf(tx))], tx.amount, tx.flag))
  }

  function PutAll(m: Accounts, records: seq<Record>): Accounts {
    if records == [] then m else PutAccount(PutAll(m, records[..|records| - 1]), records[|records| - 1])
  }

  function ApplyTx(m: Accounts, tx: SignedTx, epoch: u32): Applied {
    var w := Assemble(m, tx, epoch);
    if w.None? then Refused
    else match Native(tx.kind, w.value)
      case None => Refused
      case Some(res) => Applied(if res.success then PutAll(m, res.updated) else m, res.success)
  }

  lemma PutTwo(m: Accounts, a: Record, b: Record)
    ensures PutAll(m, [a]) == PutAccount(m, a)
    ensures PutAll(m, [a, b]) == PutAccount(PutAccount(m, a), b)
  {
    assert [a][..0] == [] && [a, b][..1] == [a];
  }

  function TxAmount(tx: SignedTx): nat { ValueLE(tx.amount) }

  /** What a transfer does to the map, when it is carried out. */
  lemma TransferEffect(m: Accounts, tx: SignedTx, epoch: u32)
    requires WellKeyed(m) && tx.kind.Transfer? && ApplyTx(m, tx, epoch).Applied? && ApplyTx(m, tx, epoch).success
    ensures tx.recipient.Some? && !Frozen(AccountOf(m, tx.signer)) && TxAmount(tx) <= BalanceAt(m, tx.signer)
    ensures var from, to := AccountOf(m, tx.signer), AccountOf(m, tx.recipient.value);
            var a, b := Debited(from, TxAmount(tx), epoch), Credited(to, TxAmount(tx), epoch);
            && ApplyTx(m, tx, epoch).accounts == PutAccount(PutAccount(m, a), b)
            && Pubkey(a) == tx.signer && Pubkey(b) == tx.recipient.value
            && Balance(a) == BalanceAt(m, tx.signer) - TxAmount(tx)
            && Balance(b) == Kept(BalanceAt(m, tx.recipient.value) + TxAmount(tx))
            && (BalanceAt(m, tx.recipient.value) + TxAmount(tx) < TWO127 ==> Frozen(b) == Frozen(to))
  {
    hide Debited, Credited, Balance, Frozen, ValueLE, AccountOf, BalanceAt, WellKeyed;
    BalanceOfAccount(m, tx.signer);
    var from, to := AccountOf(m, tx.signer), AccountOf(m, tx.recipient.value);
    BalanceOfAccount(m, tx.recipient.value);
    BalanceBound(m, tx.signer);
    BalanceBound(m, tx.recipient.value);
    AccountKey(m, tx.signer);
    AccountKey(m, tx.recipient.value);
    AmountBound(tx.amount);
    DebitedMeans(from, TxAmount(tx), epoch);
    CreditedMeans(to, TxAmount(tx), epoch);
    PutTwo(m, Debited(from, TxAmount(tx), epoch), Credited(to, TxAmount(tx), epoch));
  }

  lemma MintEffect(m: Accounts, tx: SignedTx, epoch: u32)
    requires WellKeyed(m) && tx.kind.Mint? && ApplyTx(m, tx, epoch).Applied? && ApplyTx(m, tx, epoch).success
    ensures var a := AccountOf(m, TargetOf(tx));
            var b, sum := Credited(a, TxAmount(tx), epoch), BalanceAt(m, TargetOf(tx)) + TxAmount(tx);
            && ApplyTx(m, tx, epoch).accounts == PutAccount(m, b) && Pubkey(b) == TargetOf(tx)
            && Balance(b) == Kept(sum) && (sum < TWO127 ==> Frozen(b) == Frozen(a))
  {
    hide Credited, Balance, Frozen, ValueLE, AccountOf, BalanceAt, WellKeyed;
    var a := AccountOf(m, TargetOf(tx));
    BalanceOfAccount(m, TargetOf(tx));
    AccountKey(m, TargetOf(tx));
    AmountBound(tx.amount);
    CreditedMeans(a, TxAmount(tx), epoch);
    PutTwo(m, Credited(a, TxAmount(tx), epoch), a);
  }

  lemma BurnEffect(m: Accounts, tx: SignedTx, epoch: u32)
    requires WellKeyed(m) && tx.kind.Burn? && ApplyTx(m, tx, epoch).Applied? && ApplyTx(m, tx, epoch).success
    ensures TxAmount(tx) <= BalanceAt(m, tx.signer) == Balance(AccountOf(m, tx.signer))
    ensures var a := AccountOf(m, tx.signer);
            var b := Burned(a, TxAmount(tx), epoch);
            && ApplyTx(m, tx, epoch).accounts == PutAccount(m, b) && Pubkey(b) == tx.signer
            && Balance(b) == BalanceAt(m, tx.signer) - TxAmount(tx) && Frozen(b) == Frozen(a)
  {
    hide Burned, Balance, Frozen, ValueLE, AccountOf, BalanceAt, WellKeyed;
    var a := AccountOf(m, tx.signer);
    BalanceOfAccount(m, tx.signer);
    AccountKey(m, tx.signer);
    BurnedMeans(a, TxAmount(tx), epoch);
    PutTwo(m, Burned(a, TxAmount(tx), epoch), a);
  }

  lemma FreezeEffect(m: Accounts, tx: SignedTx, epoch: u32)
    requires WellKeyed(m) && tx.kind.Freeze? && ApplyTx(m, tx, epoch).Applied? && ApplyTx(m, tx, epoch).success
    ensures var b := WithFrozen(AccountOf(m, TargetOf(tx)), tx.flag != 0);
            && ApplyTx(m, tx, epoch).accounts == PutAccount(m, b) && Pubkey(b) == TargetOf(tx)
            && Balance(b) == BalanceAt(m, TargetOf(tx)) && Frozen(b) == (tx.flag != 0)
  {
    hide WithFrozen, Balance, Frozen, ValueLE, AccountOf, BalanceAt, WellKeyed;
    var a := AccountOf(m, TargetOf(tx));
    BalanceOfAccount(m, TargetOf(tx));
    AccountKey(m, TargetOf(tx));
    SetFrozenKeepsBalance(a, tx.flag != 0);
    PutTwo(m, WithFrozen(a, tx.flag != 0), a);
  }

  // ----- conservation, one transaction at a time -----

  /** The transaction credits an account to 2^127 or more. */
  predicate Wraps(m: Accounts, tx: SignedTx) {
    || (tx.kind.Transfer? && tx.recipient.Some? && BalanceAt(m, tx.recipient.value) + TxAmount(tx) >= TWO127)
    || (tx.kind.Mint? && BalanceAt(m, TargetOf(tx)) + TxAmount(tx) >= TWO127)
  }

  function WrapLoss(m: Accounts, tx: SignedTx): nat { if Wraps(m, tx) then TWO127 else 0 }

  /** What a transfer sends back to its own sender. */
  function SelfMoved(tx: SignedTx): nat {
    if tx.kind.Transfer? && tx.recipient == Some(tx.signer) then TxAmount(tx) else 0
  }

  /**
   A carried-out transfer adds what it sends to itself and loses 2^127 when it wraps.  So it
   keeps the supply exactly when it moves nothing, or has two ends and does not wrap.
   */
  lemma TransferConserves(m: Accounts, tx: SignedTx, epoch: u32)
    requires WellKeyed(m) && tx.kind.Transfer? && ApplyTx(m, tx, epoch).Applied? && ApplyTx(m, tx, epoch).success
    ensures var m' := ApplyTx(m, tx, epoch).accounts;
            && WellKeyed(m') && tx.recipient.Some?
            && Supply(m') + WrapLoss(m, tx) == Supply(m) + SelfMoved(tx)
            && (Supply(m') == Supply(m) <==>
                  TxAmount(tx) == 0 || (tx.signer != tx.recipient.value && BalanceAt(m, tx.recipient.value) + TxAmount(tx) < TWO127))
  {
    hide ApplyTx, Debited, Credited, Balance, Frozen, TxAmount, AccountOf, BalanceAt, Supply, WellKeyed;
    TransferEffect(m, tx, epoch);
    BalanceOfAccount(m, tx.signer);
    var from, to := AccountOf(m, tx.signer), AccountOf(m, tx.recipient.value);
    BalanceBound(m, tx.signer);
    BalanceBound(m, tx.recipient.value);
    TwoWrites(m, Debited(from, TxAmount(tx), epoch), Credited(to, TxAmount(tx), epoch), TxAmount(tx));
  }

  lemma BalanceBound(m: Accounts, k: Bytes)
    ensures BalanceAt(m, k) < TWO127
  {
  }

  /** Debit, then credit: the supply stays, unless the second write covers the first or wraps. */
  lemma TwoWrites(m: Accounts, a: Record, b: Record, amount: nat)
    requires WellKeyed(m) && amount <= BalanceAt(m, Pubkey(a)) && Balance(a) == BalanceAt(m, Pubkey(a)) - amount
    requires Balance(b) == Kept(BalanceAt(m, Pubkey(b)) + amount)
    ensures var m', sum := PutAccount(PutAccount(m, a), b), BalanceAt(m, Pubkey(b)) + amount;
            && WellKeyed(m')
            && Supply(m') + (sum - Kept(sum)) == Supply(m) + if Pubkey(a) == Pubkey(b) then amount else 0
  {
    SupplyPut(m, a);
    SupplyPut(PutAccount(m, a), b);
    PutOther(m, a, Pubkey(b));
  }

  /** Every covered transfer to oneself is carried out and adds its amount, less 2^127 when it wraps. */
  lemma SelfTransferAdds(m: Accounts, tx: SignedTx, epoch: u32)
    requires WellKeyed(m) && tx.kind.Transfer? && tx.recipient == Some(tx.signer) && !Frozen(AccountOf(m, tx.signer))
    requires TxAmount(tx) <= BalanceAt(m, tx.signer)
    ensures var r := ApplyTx(m, tx, epoch);
            r.Applied? && r.success && Supply(r.accounts) + WrapLoss(m, tx) == Supply(m) + TxAmount(tx)
  {
    BalanceOfAccount(m, tx.signer);
    TransferConserves(m, tx, epoch);
  }

  /** A mint adds its amount, less 2^127 when it wraps. */
  lemma MintAdds(m: Accounts, tx: SignedTx, epoch: u32)
    requires WellKeyed(m) && tx.kind.Mint? && ApplyTx(m, tx, epoch).Applied? && ApplyTx(m, tx, epoch).success
    ensures var m' := ApplyTx(m, tx, epoch).accounts;
            && WellKeyed(m') && Supply(m') + WrapLoss(m, tx) == Supply(m) + TxAmount(tx)
            && (Supply(m') == Supply(m) + TxAmount(tx) <==> BalanceAt(m, TargetOf(tx)) + TxAmount(tx) < TWO127)
  {
    MintEffect(m, tx, epoch);
    SupplyPut(m, Credited(AccountOf(m, TargetOf(tx)), TxAmount(tx), epoch));
  }

  lemma BurnSubtracts(m: Accounts, tx: SignedTx, epoch: u32)
    requires WellKeyed(m) && tx.kind.Burn? && ApplyTx(m, tx, epoch).Applied? && ApplyTx(m, tx, epoch).success
    ensures var m' := ApplyTx(m, tx, epoch).accounts;
            WellKeyed(m') && Supply(m') + TxAmount(tx) == Supply(m)
  {
    BurnEffect(m, tx, epoch);
    SupplyPut(m, Burned(AccountOf(m, tx.signer), TxAmount(tx), epoch));
    TwoWithinSupply(m, tx.signer, tx.signer);
  }

  lemma FreezeKeepsSupply(m: Accounts, tx: SignedTx, epoch: u32)
    requires WellKeyed(m) && tx.kind.Freeze? && ApplyTx(m, tx, epoch).Applied? && ApplyTx(m, tx, epoch).success
    ensures var m' := ApplyTx(m, tx, epoch).accounts;
            WellKeyed(m') && Supply(m') == Supply(m)
  {
    FreezeEffect(m, tx, epoch);
    SupplyPut(m, WithFrozen(AccountOf(m, TargetOf(tx)), tx.flag != 0));
  }

  // ----- admission -----

  datatype IssuerRecord = IssuerRecord(
    assetId: u32, authority: PublicKey, maxSupply: Bytes16, mintEnabled: bool, burnEnabled: bool, freezeEnabled: bool,
    travelRuleThreshold: Bytes16, regulatorViewKeys: seq<PublicKey>, name: Bytes)

  type Registry = map<Hash, IssuerRecord>

  // "issuer:"
  const ISSUER_PREFIX: Bytes := [105, 115, 115, 117, 101, 114, 58]

  function IssuerKeyInput(assetId: u32): Bytes { ISSUER_PREFIX + ToLE(assetId, 4) }

  function LookupIssuer(h: HashFn, r: Registry, assetId: u32): Option<IssuerRecord> {
    var k := h(IssuerKeyInput(assetId));
    if k in r then Some(r[k]) else None
  }

  function RegisterIssuer(h: HashFn, r: Registry, rec: IssuerRecord): Registry {
    r[h(IssuerKeyInput(rec.assetId)) := rec]
  }

  /** Records are filed under the key of their own asset. */
  ghost predicate GoodRegistry(h: HashFn, r: Registry) {
    forall k :: k in r ==> k == h(IssuerKeyInput(r[k].assetId))
  }

  /** The record found for an asset is that asset's, or the two keys collide. */
  lemma LookupIsOwn(h: HashFn, r: Registry, assetId: u32)
    requires GoodRegistry(h, r) && LookupIssuer(h, r, assetId).Some?
    ensures var rec := LookupIssuer(h, r, assetId).value;
            rec.assetId == assetId || Collision(h, IssuerKeyInput(assetId), IssuerKeyInput(rec.assetId))
  {
    var rec := LookupIssuer(h, r, assetId).value;
    if IssuerKeyInput(assetId) == IssuerKeyInput(rec.assetId) {
      ConcatSplit(ISSUER_PREFIX, ToLE(assetId, 4), ISSUER_PREFIX, ToLE(rec.assetId, 4));
      PowValues();
      ToLEInjective(assetId, rec.assetId, 4);
    }
  }

  datatype Admission =
    | Admitted
    | InvalidSignature
    | NonceMismatch
    | SenderFrozen
    | UnknownAsset
    | NotAuthorized
    | NoCourtOrder
    | NoTravelRuleMetadata

  function Validate(ver: Verifier, m: Accounts, issuer: Option<IssuerRecord>, tx: SignedTx): Admission {
    var account := AccountOf(m, tx.signer);
    if !ver(tx.signer, Canonical(tx), tx.signature) then InvalidSignature
    else if (tx.kind.Transfer? || tx.kind.Burn? || tx.kind.MultiAsset?) && tx.nonce != NextNonce(account) then NonceMismatch
    else if (tx.kind.Transfer? || tx.kind.Burn?) && Frozen(account) then SenderFrozen
    else if issuer.None? then UnknownAsset
    else
      var rec := issuer.value;
      if tx.kind.Mint? && (tx.signer != rec.authority || !rec.mintEnabled) then NotAuthorized
      else if tx.kind.Burn? && (tx.signer != rec.authority || !rec.burnEnabled) then NotAuthorized
      else if tx.kind.Freeze? && (tx.signer != rec.authority || !rec.freezeEnabled) then NotAuthorized
      else if tx.kind.Freeze? && tx.courtOrderHash.None? then NoCourtOrder
      else
        var threshold := ValueLE(rec.travelRuleThreshold);
        if (tx.kind.Transfer? || tx.kind.MultiAsset?) && (threshold == 0 || TxAmount(tx) > threshold) && tx.originatorMetadata.None?
        then NoTravelRuleMetadata else Admitted
  }

  /** A supply change or freeze that passes was signed by the authority the registry names. */
  predicate Authorised(ver: Verifier, tx: SignedTx, rec: IssuerRecord) {
    && ver(tx.signer, Canonical(tx), tx.signature)
    && (tx.kind.Mint? ==> tx.signer == rec.authority && rec.mintEnabled)
    && (tx.kind.Burn? ==> tx.signer == rec.authority && rec.burnEnabled)
    && (tx.kind.Freeze? ==> tx.signer == rec.authority && rec.freezeEnabled && tx.courtOrderHash.Some?)
  }

  // ----- runs -----

  /** `Lose` drops the head of the queue: a drained transaction behind one at which its block stopped. */
  datatype Event = Register(rec: IssuerRecord) | Ingress(tx: SignedTx) | Execute(epoch: u32) | Lose

  /**
   The state, with totals over the carried-out transactions: minted, burned, sent to oneself,
   and the number of credits that wrapped.
   */
  datatype State = State(accounts: Accounts, registry: Registry, queue: seq<SignedTx>,
                         minted: nat, burned: nat, selfMoved: nat, wraps: nat, executed: seq<SignedTx>)

  /** The books after a carried-out transaction. */
  function Carried(s: State, tx: SignedTx, m: Accounts): State {
    s.(accounts := m, executed := s.executed + [tx],
       minted := s.minted + (if tx.kind.Mint? then TxAmount(tx) else 0),
       burned := s.burned + (if tx.kind.Burn? then TxAmount(tx) else 0),
       selfMoved := s.selfMoved + SelfMoved(tx),
       wraps := s.wraps + (if Wraps(s.accounts, tx) then 1 else 0))
  }

  function Next(h: HashFn, ver: Verifier, capacity: nat, s: State, ev: Event): State {
    match ev
    case Register(rec) => s.(registry := RegisterIssuer(h, s.registry, rec))
    case Ingress(tx) =>
      var issuer := LookupIssuer(h, s.registry, tx.assetId);
      if |s.queue| >= capacity || !Validate(ver, s.accounts, issuer, tx).Admitted? then s
      else s.(queue := s.queue + [tx])
    case Execute(epoch) =>
      if s.queue == [] then s
      else
        var tx, s' := s.queue[0], s.(queue := s.queue[1..]);
        var r := ApplyTx(s.accounts, tx, epoch);
        if r.Refused? || !r.success then s' else Carried(s', tx, r.accounts)
    case Lose => if s.queue == [] then s else s.(queue := s.queue[1..])
  }

  function Run(h: HashFn, ver: Verifier, capacity: nat, s: State, evs: seq<Event>): State {
    if evs == [] then s
    else Next(h, ver, capacity, Run(h, ver, capacity, s, evs[..|evs| - 1]), evs[|evs| - 1])
  }

  ghost predicate Start(h: HashFn, s: State) {
    && WellKeyed(s.accounts) && GoodRegistry(h, s.registry)
    && s.queue == [] && s.minted == s.burned == s.selfMoved == s.wraps == 0 && s.executed == []
  }

  ghost predicate TwoEnded(tx: SignedTx) {
    tx.kind.Transfer? && tx.recipient.Some? ==> tx.signer != tx.recipient.value
  }

  // --- blocks are pieces of runs ---

  /** Execute a list of drained transactions, stopping at the first that is refused. */
  function Block(m: Accounts, txs: seq<SignedTx>, epoch: u32): (Accounts, bool)
    decreases |txs|
  {
    if txs == [] then (m, true)
    else
      var r := ApplyTx(m, txs[0], epoch);
      if r.Refused? then (m, false) else Block(r.accounts, txs[1..], epoch)
  }

  lemma EmptyBlock(m: Accounts, epoch: u32)
    ensures Block(m, [], epoch) == (m, true)
  {
  }

  lemma BlockStep(m: Accounts, txs: seq<SignedTx>, i: nat, epoch: u32)
    requires i < |txs|
    ensures var r := ApplyTx(m, txs[i], epoch);
            Block(m, txs[i..], epoch) == if r.Refused? then (m, false) else Block(r.accounts, txs[i + 1..], epoch)
  {
    assert txs[i..][1..] == txs[i + 1..];
  }

  function BlockEvents(m: Accounts, txs: seq<SignedTx>, epoch: u32): seq<Event>
    decreases |txs|
  {
    if txs == [] then []
    else
      var r := ApplyTx(m, txs[0], epoch);
      if r.Refused? then seq(|txs|, _ => Lose)
      else [Event.Execute(epoch)] + BlockEvents(r.accounts, txs[1..], epoch)
  }

  lemma {:induction false} RunConcat(h: HashFn, ver: Verifier, capacity: nat, s: State, a: seq<Event>, b: seq<Event>)
    ensures Run(h, ver, capacity, s, a + b) == Run(h, ver, capacity, Run(h, ver, capacity, s, a), b)
    decreases |b|
  {
    if b == [] {
      assert a + b == a;
    } else {
      RunConcat(h, ver, capacity, s, a, b[..|b| - 1]);
      assert (a + b)[..|a + b| - 1] == a + b[..|b| - 1];
    }
  }

  lemma RunOne(h: HashFn, ver: Verifier, capacity: nat, s: State, ev: Event)
    ensures Run(h, ver, capacity, s, [ev]) == Next(h, ver, capacity, s, ev)
  {
    assert [ev][..0] == [];
  }

  lemma {:induction false} LoseAll(h: HashFn, ver: Verifier, capacity: nat, s: State, n: nat)
    requires n <= |s.queue|
    ensures Run(h, ver, capacity, s, seq(n, _ => Lose)) == s.(queue := s.queue[n..])
  {
    var evs := seq(n, _ => Lose);
    if n == 0 {
      assert evs == [] && s.queue[0..] == s.queue;
    } else {
      LoseAll(h, ver, capacity, s, n - 1);
      assert evs[..n - 1] == seq(n - 1, _ => Lose);
      assert s.queue[n - 1..][1..] == s.queue[n..];
    }
  }

  lemma ExecuteOne(h: HashFn, ver: Verifier, capacity: nat, s: State, epoch: u32)
    requires s.queue != [] && ApplyTx(s.accounts, s.queue[0], epoch).Applied?
    ensures var s1 := Run(h, ver, capacity, s, [Event.Execute(epoch)]);
            && s1.queue == s.queue[1..] && s1.registry == s.registry
            && s1.accounts == ApplyTx(s.accounts, s.queue[0], epoch).accounts
  {
    RunOne(h, ver, capacity, s, Event.Execute(epoch));
  }

  /** The run of a block: executions of the first `n` in the queue up to the first refusal, then losses. */
  function AfterBlock(h: HashFn, ver: Verifier, capacity: nat, s: State, n: nat, epoch: u32): State
    requires n <= |s.queue|
  {
    Run(h, ver, capacity, s, BlockEvents(s.accounts, s.queue[..n], epoch))
  }

  lemma {:induction false} BlockIsRun(h: HashFn, ver: Verifier, capacity: nat, s: State, n: nat, epoch: u32)
    requires n <= |s.queue|
    ensures var s' := AfterBlock(h, ver, capacity, s, n, epoch);
            && s'.accounts == Block(s.accounts, s.queue[..n], epoch).0
            && s'.queue == s.queue[n..] && s'.registry == s.registry
    decreases n
  {
    hide ApplyTx, Next;
    var txs := s.queue[..n];
    if n > 0 {
      assert txs[0] == s.queue[0];
      var r := ApplyTx(s.accounts, txs[0], epoch);
      if r.Refused? {
        LoseAll(h, ver, capacity, s, n);
      } else {
        ExecuteOne(h, ver, capacity, s, epoch);
        var s1 := Run(h, ver, capacity, s, [Event.Execute(epoch)]);
        assert s1.queue[..n - 1] == txs[1..] && s1.queue[n - 1..] == s.queue[n..];
        BlockIsRun(h, ver, capacity, s1, n - 1, epoch);
        RunConcat(h, ver, capacity, s, [Event.Execute(epoch)], BlockEvents(r.accounts, txs[1..], epoch));
      }
    }
  }

  // ----- inputs at which the expected laws fail -----

  function Plainly(kind: TxKind, key: PublicKey, nonce: u64, recipient: Option<PublicKey>): SignedTx {
    SignedTx(kind, 0, nonce, key, recipient, ToLE(1, 16), 0, None, None, None, Zeros(64))
  }

  function Holding(key: PublicKey, v: u128): Record { WithBalance(Fresh(key), v) }

  lemma HoldingMeans(key: PublicKey, v: u128)
    requires v < TWO127
    ensures var a := Holding(key, v); Balance(a) == v && !Frozen(a) && Pubkey(a) == key && NextNonce(a) == 1
  {
    FreshIsEmpty(key);
    SetBalanceExact(Fresh(key), v);
    assert Fresh(key)[48..56] == Zeros(8);
    ValueLEZeros(8);
  }

  lemma NoSupply()
    ensures Supply(map[]) == 0
  {
  }

  lemma OneUnit(kind: TxKind, key: PublicKey, nonce: u64, recipient: Option<PublicKey>)
    ensures TxAmount(Plainly(kind, key, nonce, recipient)) == 1
  {
    PowValues();
    ValueToLE(1, 16);
  }

  /** The mempool's signature check passes, and the issuer asks for no metadata on small amounts. */
  ghost predicate Welcome(ver: Verifier, rec: IssuerRecord, tx: SignedTx) {
    ver(tx.signer, Canonical(tx), tx.signature) && ValueLE(rec.travelRuleThreshold) >= 1
  }

  /** A transfer of 1 from an account of 5 to itself is admitted and makes the supply 6. */
  lemma SelfTransferCreates(ver: Verifier, rec: IssuerRecord, key: PublicKey, epoch: u32)
    requires Welcome(ver, rec, Plainly(Transfer, key, 1, Some(key)))
    ensures var m, tx := PutAccount(map[], Holding(key, 5)), Plainly(Transfer, key, 1, Some(key));
            var r := ApplyTx(m, tx, epoch);
            && WellKeyed(m) && Validate(ver, m, Some(rec), tx) == Admitted
            && r.Applied? && r.success && Supply(m) == 5 && Supply(r.accounts) == 6
  {
    hide ApplyTx, Validate, Holding, Canonical, TxAmount, ToLE, Supply;
    var m, tx := PutAccount(map[], Holding(key, 5)), Plainly(Transfer, key, 1, Some(key));
    NoSupply();
    HoldingMeans(key, 5);
    OneUnit(Transfer, key, 1, Some(key));
    SupplyPut(map[], Holding(key, 5));
    PutOther(map[], Holding(key, 5), key);
    SelfTransferAdds(m, tx, epoch);
    PlainTransferAdmitted(ver, m, rec, tx);
  }

  lemma PlainTransferAdmitted(ver: Verifier, m: Accounts, rec: IssuerRecord, tx: SignedTx)
    requires Welcome(ver, rec, tx) && tx.kind.Transfer? && TxAmount(tx) == 1
    requires tx.nonce == NextNonce(AccountOf(m, tx.signer)) && !Frozen(AccountOf(m, tx.signer))
    ensures Validate(ver, m, Some(rec), tx) == Admitted
  {
  }

  /** A transfer of 1 between two accounts, to one that holds 2^127 - 1, is admitted and destroys the supply of 2^127. */
  lemma TransferDestroys(ver: Verifier, rec: IssuerRecord, from: PublicKey, to: PublicKey, epoch: u32)
    requires from != to && Welcome(ver, rec, Plainly(Transfer, from, 1, Some(to)))
    ensures var m := PutAccount(PutAccount(map[], Holding(to, TWO127 - 1)), Holding(from, 1));
            var tx := Plainly(Transfer, from, 1, Some(to));
            var r := ApplyTx(m, tx, epoch);
            && WellKeyed(m) && Validate(ver, m, Some(rec), tx) == Admitted
            && r.Applied? && r.success && Supply(m) == TWO127 && Supply(r.accounts) == 0
  {
    hide ApplyTx, Validate, Holding, Canonical, TxAmount, ToLE, Supply;
    NoSupply();
    var m1 := PutAccount(map[], Holding(to, TWO127 - 1));
    var m, tx := PutAccount(m1, Holding(from, 1)), Plainly(Transfer, from, 1, Some(to));
    HoldingMeans(to, TWO127 - 1);
    HoldingMeans(from, 1);
    OneUnit(Transfer, from, 1, Some(to));
    SupplyPut(map[], Holding(to, TWO127 - 1));
    SupplyPut(m1, Holding(from, 1));
    PutOther(m1, Holding(from, 1), from);
    PutOther(m1, Holding(from, 1), to);
    PutOther(map[], Holding(to, TWO127 - 1), to);
    CoveredIsCarriedOut(m, tx, epoch);
    TransferConserves(m, tx, epoch);
    PlainTransferAdmitted(ver, m, rec, tx);
  }

  lemma CoveredIsCarriedOut(m: Accounts, tx: SignedTx, epoch: u32)
    requires tx.kind.Transfer? && tx.recipient.Some? && !Frozen(AccountOf(m, tx.signer)) && TxAmount(tx) <= BalanceAt(m, tx.signer)
    ensures var r := ApplyTx(m, tx, epoch); r.Applied? && r.success
  {
    BalanceOfAccount(m, tx.signer);
  }

  /** A mint and a transfer to nobody are both admitted; the block stops at the second with the first written. */
  lemma StoppedBlockWrites(ver: Verifier, rec: IssuerRecord, key: PublicKey, epoch: u32)
    requires rec.authority == key && rec.mintEnabled
    requires Welcome(ver, rec, Plainly(Mint, key, 0, None)) && Welcome(ver, rec, Plainly(Transfer, key, 1, None))
    ensures var mint, pay := Plainly(Mint, key, 0, None), Plainly(Transfer, key, 1, None);
            var (m', done) := Block(map[], [mint, pay], epoch);
            && Validate(ver, map[], Some(rec), mint) == Validate(ver, map[], Some(rec), pay) == Admitted
            && !done && WellKeyed(m') && m' != map[] && Supply(m') == 1
  {
    hide Canonical, TxAmount, ToLE, Supply, Fresh;
    var mint, pay := Plainly(Mint, key, 0, None), Plainly(Transfer, key, 1, None);
    NoSupply();
    OneUnit(Mint, key, 0, None);
    OneUnit(Transfer, key, 1, None);
    FreshNonce(key);
    PlainTransferAdmitted(ver, map[], rec, pay);
    MintIsCarriedOut(map[], mint, epoch);
    MintAdds(map[], mint, epoch);
    MintThenNobody(map[], mint, pay, epoch);
  }

  lemma FreshNonce(key: PublicKey)
    ensures NextNonce(Fresh(key)) == 1 && !Frozen(Fresh(key))
  {
    FreshIsEmpty(key);
    assert Fresh(key)[48..56] == Zeros(8);
    ValueLEZeros(8);
  }

  lemma MintIsCarriedOut(m: Accounts, tx: SignedTx, epoch: u32)
    requires tx.kind.Mint? && BalanceAt(m, TargetOf(tx)) + TxAmount(tx) < TWO128
    ensures var r := ApplyTx(m, tx, epoch); r.Applied? && r.success
  {
    BalanceOfAccount(m, TargetOf(tx));
  }

  /** A block of a mint and a transfer to nobody. */
  lemma MintThenNobody(m: Accounts, mint: SignedTx, pay: SignedTx, epoch: u32)
    requires mint.kind.Mint? && ApplyTx(m, mint, epoch).Applied? && pay.kind.Transfer? && pay.recipient.None?
    ensures Block(m, [mint, pay], epoch) == (ApplyTx(m, mint, epoch).accounts, false)
  {
    BlockStep(m, [mint, pay], 0, epoch);
    BlockStep(ApplyTx(m, mint, epoch).accounts, [mint, pay], 1, epoch);
    assert [mint, pay][0..] == [mint, pay];
  }

  // --- conservation over a run ---

  /** The books balance: nothing comes from nowhere but mints and self-transfers, or goes but burns and wraps. */
  ghost predicate Balanced(initial: nat, s: State) {
    Supply(s.accounts) + s.burned + TWO127 * s.wraps == initial + s.minted + s.selfMoved
  }

  /** The supply after a carried-out transaction of any kind. */
  lemma ExecutedAccounts(m: Accounts, tx: SignedTx, epoch: u32)
    requires WellKeyed(m) && ApplyTx(m, tx, epoch).Applied? && ApplyTx(m, tx, epoch).success
    ensures var m' := ApplyTx(m, tx, epoch).accounts;
            && WellKeyed(m')
            && Supply(m') + (if tx.kind.Burn? then TxAmount(tx) else 0) + WrapLoss(m, tx)
               == Supply(m) + (if tx.kind.Mint? then TxAmount(tx) else 0) + SelfMoved(tx)
  {
    hide TxAmount, Supply, WellKeyed, BalanceAt;
    match tx.kind {
      case Transfer => TransferConserves(m, tx, epoch);
      case Mint => MintAdds(m, tx, epoch);
      case Burn => BurnSubtracts(m, tx, epoch);
      case Freeze => FreezeKeepsSupply(m, tx, epoch);
    }
  }

  lemma StepBalances(h: HashFn, ver: Verifier, capacity: nat, s: State, ev: Event, initial: nat)
    requires WellKeyed(s.accounts) && Balanced(initial, s)
    ensures WellKeyed(Next(h, ver, capacity, s, ev).accounts) && Balanced(initial, Next(h, ver, capacity, s, ev))
  {
    hide ApplyTx, Validate, Supply, WellKeyed, TxAmount, SelfMoved, Wraps;
    if ev.Execute? && s.queue != [] {
      var r := ApplyTx(s.accounts, s.queue[0], ev.epoch);
      if r.Applied? && r.success {
        ExecutedAccounts(s.accounts, s.queue[0], ev.epoch);
      }
    }
  }

  /** Over every run whatsoever the books balance and every record stays under its own key. */
  lemma {:induction false} RunBalances(h: HashFn, ver: Verifier, capacity: nat, s: State, evs: seq<Event>)
    requires Start(h, s)
    ensures var s' := Run(h, ver, capacity, s, evs); WellKeyed(s'.accounts) && Balanced(Supply(s.accounts), s')
    decreases |evs|
  {
    if evs != [] {
      RunBalances(h, ver, capacity, s, evs[..|evs| - 1]);
      StepBalances(h, ver, capacity, Run(h, ver, capacity, s, evs[..|evs| - 1]), evs[|evs| - 1], Supply(s.accounts));
    }
  }

  /** Step `i` wraps no credit and does not transfer to its own sender. */
  ghost predicate Plain(h: HashFn, ver: Verifier, capacity: nat, s: State, evs: seq<Event>, i: nat)
    requires i < |evs|
  {
    var p := Run(h, ver, capacity, s, evs[..i]);
    CreditFits(p, evs[i]) && (Executing(p, evs[i]).Some? ==> TwoEnded(Executing(p, evs[i]).value))
  }

  /** A plain step adds neither to what was sent to oneself nor to the wraps. */
  lemma PlainStep(h: HashFn, ver: Verifier, capacity: nat, s: State, ev: Event)
    requires CreditFits(s, ev) && (Executing(s, ev).Some? ==> TwoEnded(Executing(s, ev).value))
    ensures var s' := Next(h, ver, capacity, s, ev); s'.selfMoved == s.selfMoved && s'.wraps == s.wraps
  {
    hide ApplyTx, Validate, TxAmount, BalanceAt;
  }

  lemma {:induction false} PlainPrefix(h: HashFn, ver: Verifier, capacity: nat, s: State, evs: seq<Event>, n: nat)
    requires Start(h, s) && n <= |evs| && forall i: nat | i < n :: Plain(h, ver, capacity, s, evs, i)
    ensures var p := Run(h, ver, capacity, s, evs[..n]); p.selfMoved == 0 && p.wraps == 0
  {
    hide Next, CreditFits, TwoEnded, Executing;
    if n == 0 {
      assert evs[..0] == [];
    } else {
      PlainPrefix(h, ver, capacity, s, evs, n - 1);
      RunStep(h, ver, capacity, s, evs, n - 1);
      assert Plain(h, ver, capacity, s, evs, n - 1);
      PlainStep(h, ver, capacity, Run(h, ver, capacity, s, evs[..n - 1]), evs[n - 1]);
    }
  }

  /**
   Conservation: final supply plus burned equals initial supply plus minted exactly when what
   was sent to oneself makes up for the wraps; so whenever every step is plain, however much
   is minted and burned in all.
   */
  lemma RunConserves(h: HashFn, ver: Verifier, capacity: nat, s: State, evs: seq<Event>)
    requires Start(h, s)
    ensures var s' := Run(h, ver, capacity, s, evs);
            && WellKeyed(s'.accounts)
            && (Supply(s'.accounts) + s'.burned == Supply(s.accounts) + s'.minted <==> s'.selfMoved == TWO127 * s'.wraps)
            && ((forall i: nat | i < |evs| :: Plain(h, ver, capacity, s, evs, i)) ==>
                  Supply(s'.accounts) + s'.burned == Supply(s.accounts) + s'.minted)
  {
    RunBalances(h, ver, capacity, s, evs);
    if forall i: nat | i < |evs| :: Plain(h, ver, capacity, s, evs, i) {
      PlainPrefix(h, ver, capacity, s, evs, |evs|);
      assert evs[..|evs|] == evs;
    }
  }

  // --- authority over a run ---

  /** Event `k` of the run admits the transaction, under the record that the registry then holds for its asset. */
  ghost predicate AdmitsAt(h: HashFn, ver: Verifier, capacity: nat, s: State, evs: seq<Event>, k: nat, tx: SignedTx, rec: IssuerRecord) {
    && k < |evs| && evs[k] == Ingress(tx)
    && var p := Run(h, ver, capacity, s, evs[..k]);
       && |p.queue| < capacity && LookupIssuer(h, p.registry, tx.assetId) == Some(rec)
       && Validate(ver, p.accounts, Some(rec), tx).Admitted?
  }

  ghost predicate WasAdmitted(h: HashFn, ver: Verifier, capacity: nat, s: State, evs: seq<Event>, tx: SignedTx) {
    exists k: nat, rec :: AdmitsAt(h, ver, capacity, s, evs, k, tx, rec)
  }

  /** A transaction new in the queue was just admitted; one new among the executed was at the head of the queue. */
  lemma StepAuthority(h: HashFn, ver: Verifier, capacity: nat, s: State, ev: Event, tx: SignedTx)
    ensures var s', issuer := Next(h, ver, capacity, s, ev), LookupIssuer(h, s.registry, tx.assetId);
            && (tx in s'.queue && tx !in s.queue ==>
                  ev == Ingress(tx) && |s.queue| < capacity && issuer.Some? && Validate(ver, s.accounts, issuer, tx).Admitted?)
            && (tx in s'.executed && tx !in s.executed ==> tx in s.queue)
  {
  }

  lemma AdmittedStays(h: HashFn, ver: Verifier, capacity: nat, s: State, evs: seq<Event>, n: nat, tx: SignedTx)
    requires n <= |evs| && WasAdmitted(h, ver, capacity, s, evs[..n], tx)
    ensures WasAdmitted(h, ver, capacity, s, evs, tx)
  {
    var k: nat, rec :| AdmitsAt(h, ver, capacity, s, evs[..n], k, tx, rec);
    assert evs[..n][..k] == evs[..k];
    assert AdmitsAt(h, ver, capacity, s, evs, k, tx, rec);
  }

  /** In every run, whatever is queued or executed was admitted by an event of the run. */
  lemma {:induction false} RunAuthority(h: HashFn, ver: Verifier, capacity: nat, s: State, evs: seq<Event>, tx: SignedTx)
    requires Start(h, s)
    requires var s' := Run(h, ver, capacity, s, evs); tx in s'.queue || tx in s'.executed
    ensures WasAdmitted(h, ver, capacity, s, evs, tx)
    decreases |evs|
  {
    if evs != [] {
      var n := |evs| - 1;
      var p := Run(h, ver, capacity, s, evs[..n]);
      StepAuthority(h, ver, capacity, p, evs[n], tx);
      if tx in p.queue || tx in p.executed {
        RunAuthority(h, ver, capacity, s, evs[..n], tx);
        AdmittedStays(h, ver, capacity, s, evs, n, tx);
      } else {
        assert AdmitsAt(h, ver, capacity, s, evs, n, tx, LookupIssuer(h, p.registry, tx.assetId).value);
      }
    }
  }

  lemma {:induction false} RunRegistry(h: HashFn, ver: Verifier, capacity: nat, s: State, evs: seq<Event>)
    requires GoodRegistry(h, s.registry)
    ensures GoodRegistry(h, Run(h, ver, capacity, s, evs).registry)
    decreases |evs|
  {
    if evs != [] {
      RunRegistry(h, ver, capacity, s, evs[..|evs| - 1]);
    }
  }

  /**
   Authority: every executed transaction was admitted by an event of the run; it verified, and
   a mint, burn or freeze was signed by the authority in the record that the registry held
   for its asset at that event, which is the asset's own record unless registry keys collide.
   */
  lemma SupplyChangeWasSigned(h: HashFn, ver: Verifier, capacity: nat, s: State, evs: seq<Event>, i: nat)
    returns (k: nat, rec: IssuerRecord)
    requires Start(h, s) && i < |Run(h, ver, capacity, s, evs).executed|
    ensures var tx := Run(h, ver, capacity, s, evs).executed[i];
            && k < |evs| && evs[k] == Ingress(tx)
            && LookupIssuer(h, Run(h, ver, capacity, s, evs[..k]).registry, tx.assetId) == Some(rec)
            && Authorised(ver, tx, rec)
            && (rec.assetId == tx.assetId || Collision(h, IssuerKeyInput(tx.assetId), IssuerKeyInput(rec.assetId)))
  {
    var tx := Run(h, ver, capacity, s, evs).executed[i];
    RunAuthority(h, ver, capacity, s, evs, tx);
    k, rec :| AdmitsAt(h, ver, capacity, s, evs, k, tx, rec);
    RunRegistry(h, ver, capacity, s, evs[..k]);
    LookupIsOwn(h, Run(h, ver, capacity, s, evs[..k]).registry, tx.assetId);
  }

  /** The transactions that a run admits, in order. */
  function AdmittedIn(h: HashFn, ver: Verifier, capacity: nat, s: State, evs: seq<Event>): seq<SignedTx> {
    if evs == [] then []
    else
      var init, ev := evs[..|evs| - 1], evs[|evs| - 1];
      var p := Run(h, ver, capacity, s, init);
      AdmittedIn(h, ver, capacity, s, init) + Newly(p.queue, Next(h, ver, capacity, p, ev).queue)
  }

  /** What was appended to a queue. */
  function Newly(q: seq<SignedTx>, q': seq<SignedTx>): seq<SignedTx> {
    if |q| < |q'| then q'[|q|..] else []
  }

  lemma StepMultiplicity(h: HashFn, ver: Verifier, capacity: nat, s: State, ev: Event)
    ensures var s' := Next(h, ver, capacity, s, ev);
            multiset(s'.executed) + multiset(s'.queue) <= multiset(s.executed) + multiset(s.queue) + multiset(Newly(s.queue, s'.queue))
  {
    hide ApplyTx, Validate;
    var s' := Next(h, ver, capacity, s, ev);
    if ev.Ingress? && s'.queue != s.queue {
      Appended(s.queue, ev.tx);
    } else if (ev.Execute? || ev.Lose?) && s.queue != [] {
      HeadLeaves(s.queue, s.executed);
    }
  }

  lemma Appended(q: seq<SignedTx>, tx: SignedTx)
    ensures multiset(q + [tx]) == multiset(q) + multiset(Newly(q, q + [tx]))
  {
    assert Newly(q, q + [tx]) == [tx];
  }

  lemma HeadLeaves(q: seq<SignedTx>, executed: seq<SignedTx>)
    requires q != []
    ensures multiset(executed + [q[0]]) + multiset(q[1..]) == multiset(executed) + multiset(q)
    ensures multiset(q[1..]) <= multiset(q) && Newly(q, q[1..]) == []
  {
    assert q == [q[0]] + q[1..];
  }

  /** No transaction is executed, or waits to be, more often than it was admitted. */
  lemma {:induction false} ExecutedWithinAdmitted(h: HashFn, ver: Verifier, capacity: nat, s: State, evs: seq<Event>)
    requires Start(h, s)
    ensures var s' := Run(h, ver, capacity, s, evs);
            multiset(s'.executed) + multiset(s'.queue) <= multiset(AdmittedIn(h, ver, capacity, s, evs))
    decreases |evs|
  {
    if evs != [] {
      ExecutedWithinAdmitted(h, ver, capacity, s, evs[..|evs| - 1]);
      StepMultiplicity(h, ver, capacity, Run(h, ver, capacity, s, evs[..|evs| - 1]), evs[|evs| - 1]);
    }
  }

  // --- frozen accounts over a run ---

  /** The transaction a step would execute. */
  function Executing(s: State, ev: Event): Option<SignedTx> {
    if ev.Execute? && s.queue != [] then Some(s.queue[0]) else None
  }

  /** No credit of the step reaches 2^127. */
  ghost predicate CreditFits(s: State, ev: Event) {
    var tx := Executing(s, ev);
    && (tx.Some? && tx.value.kind.Transfer? && tx.value.recipient.Some? ==>
          BalanceAt(s.accounts, tx.value.recipient.value) + TxAmount(tx.value) < TWO127)
    && (tx.Some? && tx.value.kind.Mint? ==> BalanceAt(s.accounts, TargetOf(tx.value)) + TxAmount(tx.value) < TWO127)
  }

  ghost predicate Unfreezes(s: State, ev: Event, key: PublicKey) {
    var tx := Executing(s, ev);
    tx.Some? && tx.value.kind.Freeze? && TargetOf(tx.value) == key && tx.value.flag == 0
  }

  /** While frozen: the flag stays, transfers do not lower the balance, credits arrive exactly, and only a burn takes away. */
  ghost predicate FrozenStep(s: State, s': State, ev: Event, key: PublicKey) {
    var tx := Executing(s, ev);
    var b, b' := BalanceAt(s.accounts, key), BalanceAt(s'.accounts, key);
    && Frozen(AccountOf(s'.accounts, key))
    && (tx.Some? && tx.value.kind.Transfer? ==>
          b' == if s'.executed != s.executed && tx.value.recipient == Some(key) then b + TxAmount(tx.value) else b)
    && (tx.Some? && tx.value.kind.Mint? ==>
          b' == if s'.executed != s.executed && TargetOf(tx.value) == key then b + TxAmount(tx.value) else b)
    && (tx.Some? && tx.value.kind.Burn? ==>
          b' == if s'.executed != s.executed && tx.value.signer == key then b - TxAmount(tx.value) else b)
    && (tx.None? || tx.value.kind.Freeze? || tx.value.kind.MultiAsset? ==> b' == b)
  }

  lemma PutOther(m: Accounts, a: Record, key: PublicKey)
    ensures Pubkey(a) != key ==> AccountOf(PutAccount(m, a), key) == AccountOf(m, key) && BalanceAt(PutAccount(m, a), key) == BalanceAt(m, key)
    ensures Pubkey(a) == key ==> AccountOf(PutAccount(m, a), key) == a && BalanceAt(PutAccount(m, a), key) == Balance(a)
  {
  }

  lemma FrozenTransfer(m: Accounts, tx: SignedTx, epoch: u32, key: PublicKey)
    requires WellKeyed(m) && Frozen(AccountOf(m, key)) && tx.kind.Transfer?
    requires ApplyTx(m, tx, epoch).Applied? && ApplyTx(m, tx, epoch).success
    requires tx.recipient.Some? ==> BalanceAt(m, tx.recipient.value) + TxAmount(tx) < TWO127
    ensures var m' := ApplyTx(m, tx, epoch).accounts;
            && WellKeyed(m') && Frozen(AccountOf(m', key))
            && BalanceAt(m', key) == if tx.recipient == Some(key) then BalanceAt(m, key) + TxAmount(tx) else BalanceAt(m, key)
  {
    hide ApplyTx, Debited, Credited, Balance, Frozen, TxAmount, AccountOf, BalanceAt, WellKeyed;
    TransferEffect(m, tx, epoch);
    BalanceOfAccount(m, tx.signer);
    var a := Debited(AccountOf(m, tx.signer), TxAmount(tx), epoch);
    var b := Credited(AccountOf(m, tx.recipient.value), TxAmount(tx), epoch);
    FrozenWrites(m, a, b, key, TxAmount(tx));
  }

  lemma FrozenWrites(m: Accounts, a: Record, b: Record, key: PublicKey, amount: nat)
    requires WellKeyed(m) && Frozen(AccountOf(m, key)) && Pubkey(a) != key
    requires Balance(b) == BalanceAt(m, Pubkey(b)) + amount && Frozen(b) == Frozen(AccountOf(m, Pubkey(b)))
    ensures var m' := PutAccount(PutAccount(m, a), b);
            && WellKeyed(m') && Frozen(AccountOf(m', key))
            && BalanceAt(m', key) == if Pubkey(b) == key then BalanceAt(m, key) + amount else BalanceAt(m, key)
  {
    PutOther(m, a, key);
    PutOther(PutAccount(m, a), b, key);
  }

  lemma FrozenSingle(m: Accounts, tx: SignedTx, epoch: u32, key: PublicKey)
    requires WellKeyed(m) && Frozen(AccountOf(m, key)) && (tx.kind.Mint? || tx.kind.Burn? || tx.kind.Freeze?)
    requires ApplyTx(m, tx, epoch).Applied? && ApplyTx(m, tx, epoch).success
    requires tx.kind.Mint? ==> BalanceAt(m, TargetOf(tx)) + TxAmount(tx) < TWO127
    requires tx.kind.Freeze? && TargetOf(tx) == key ==> tx.flag != 0
    ensures var m' := ApplyTx(m, tx, epoch).accounts;
            && WellKeyed(m') && Frozen(AccountOf(m', key))
            && (tx.kind.Mint? ==> BalanceAt(m', key) == if TargetOf(tx) == key then BalanceAt(m, key) + TxAmount(tx) else BalanceAt(m, key))
            && (tx.kind.Burn? ==> BalanceAt(m', key) == if tx.signer == key then BalanceAt(m, key) - TxAmount(tx) else BalanceAt(m, key))
            && (tx.kind.Freeze? ==> BalanceAt(m', key) == BalanceAt(m, key))
  {
    hide ApplyTx, Credited, Burned, WithFrozen, Balance, Frozen, TxAmount, AccountOf, BalanceAt;
    match tx.kind {
      case Mint =>
        MintEffect(m, tx, epoch);
        PutOther(m, Credited(AccountOf(m, TargetOf(tx)), TxAmount(tx), epoch), key);
      case Burn =>
        BurnEffect(m, tx, epoch);
        PutOther(m, Burned(AccountOf(m, tx.signer), TxAmount(tx), epoch), key);
      case Freeze =>
        FreezeEffect(m, tx, epoch);
        PutOther(m, WithFrozen(AccountOf(m, TargetOf(tx)), tx.flag != 0), key);
    }
  }

  lemma MultiAssetRefused(m: Accounts, tx: SignedTx, epoch: u32)
    ensures tx.kind.MultiAsset? ==> ApplyTx(m, tx, epoch).Refused?
  {
  }

  lemma FrozenStepHolds(h: HashFn, ver: Verifier, capacity: nat, s: State, ev: Event, key: PublicKey)
    requires WellKeyed(s.accounts) && Frozen(AccountOf(s.accounts, key)) && CreditFits(s, ev) && !Unfreezes(s, ev, key)
    ensures WellKeyed(Next(h, ver, capacity, s, ev).accounts)
    ensures FrozenStep(s, Next(h, ver, capacity, s, ev), ev, key)
  {
    hide ApplyTx, Validate, WellKeyed, TxAmount, AccountOf, BalanceAt, Frozen;
    var tx := Executing(s, ev);
    if tx.Some? {
      var r := ApplyTx(s.accounts, tx.value, ev.epoch);
      MultiAssetRefused(s.accounts, tx.value, ev.epoch);
      if r.Applied? && r.success {
        assert Next(h, ver, capacity, s, ev).executed != s.executed;
        if tx.value.kind.Transfer? {
          FrozenTransfer(s.accounts, tx.value, ev.epoch, key);
        } else {
          FrozenSingle(s.accounts, tx.value, ev.epoch, key);
        }
      }
    }
  }

  lemma RunStep(h: HashFn, ver: Verifier, capacity: nat, s: State, evs: seq<Event>, i: nat)
    requires i < |evs|
    ensures Run(h, ver, capacity, s, evs[..i + 1]) == Next(h, ver, capacity, Run(h, ver, capacity, s, evs[..i]), evs[i])
  {
    assert evs[..i + 1][..i] == evs[..i];
  }

  /** Step `i` overflows no credit and does not unfreeze the account. */
  ghost predicate Quiet(h: HashFn, ver: Verifier, capacity: nat, s: State, evs: seq<Event>, key: PublicKey, i: nat)
    requires i < |evs|
  {
    var p := Run(h, ver, capacity, s, evs[..i]);
    CreditFits(p, evs[i]) && !Unfreezes(p, evs[i], key)
  }

  lemma {:induction false} FrozenPrefix(h: HashFn, ver: Verifier, capacity: nat, s: State, evs: seq<Event>, key: PublicKey, n: nat)
    requires WellKeyed(s.accounts) && Frozen(AccountOf(s.accounts, key)) && n <= |evs|
    requires forall i: nat | i < n :: Quiet(h, ver, capacity, s, evs, key, i)
    ensures var p := Run(h, ver, capacity, s, evs[..n]); WellKeyed(p.accounts) && Frozen(AccountOf(p.accounts, key))
  {
    if n == 0 {
      assert evs[..0] == [];
    } else {
      FrozenPrefix(h, ver, capacity, s, evs, key, n - 1);
      RunStep(h, ver, capacity, s, evs, n - 1);
      assert Quiet(h, ver, capacity, s, evs, key, n - 1);
      FrozenStepHolds(h, ver, capacity, Run(h, ver, capacity, s, evs[..n - 1]), evs[n - 1], key);
    }
  }

  /** From a frozen state on, as long as no step unfreezes the account, every step is a frozen step. */
  lemma FrozenRun(h: HashFn, ver: Verifier, capacity: nat, s: State, evs: seq<Event>, key: PublicKey, i: nat)
    requires WellKeyed(s.accounts) && Frozen(AccountOf(s.accounts, key)) && i < |evs|
    requires forall j: nat | j <= i :: Quiet(h, ver, capacity, s, evs, key, j)
    ensures FrozenStep(Run(h, ver, capacity, s, evs[..i]), Run(h, ver, capacity, s, evs[..i + 1]), evs[i], key)
  {
    FrozenPrefix(h, ver, capacity, s, evs, key, i);
    RunStep(h, ver, capacity, s, evs, i);
    assert Quiet(h, ver, capacity, s, evs, key, i);
    FrozenStepHolds(h, ver, capacity, Run(h, ver, capacity, s, evs[..i]), evs[i], key);
  }
}
