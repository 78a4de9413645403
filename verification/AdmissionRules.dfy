/**
 Admission in the terms of the rules it enforces (sequencer/src/mempool.rs,
 issuer_registry.rs): which transactions are admitted, which record they are judged by, and
 what therefore holds of everything that is ever executed.
 */
module AdmissionRules {
  import opened Bytes
  import opened Hashing
  import opened Encodings
  import opened AccountRecord
  import opened Executor
  import opened Ledger
  import opened LedgerLimits

  /** An amount that must travel with its originator's metadata: above the threshold, or any when there is none. */
  predicate NeedsMetadata(rec: IssuerRecord, amount: nat) {
    var threshold := ValueLE(rec.travelRuleThreshold);
    threshold == 0 || amount > threshold
  }

  /** Everything the rules ask of a transaction, on the accounts `m` and under the issuer's record. */
  ghost predicate Lawful(ver: Verifier, m: Accounts, rec: IssuerRecord, tx: SignedTx) {
    && ver(tx.signer, Canonical(tx), tx.signature)
    && (tx.kind.Mint? ==> tx.signer == rec.authority && rec.mintEnabled)
    && (tx.kind.Burn? ==> tx.signer == rec.authority && rec.burnEnabled)
    && (tx.kind.Freeze? ==> tx.signer == rec.authority && rec.freezeEnabled && tx.courtOrderHash.Some?)
    && (!tx.kind.Mint? && !tx.kind.Freeze? ==> tx.nonce == (Nonce(AccountOf(m, tx.signer)) + 1) % TWO64)
    && (tx.kind.Transfer? || tx.kind.Burn? ==> !Frozen(AccountOf(m, tx.signer)))
    && ((tx.kind.Transfer? || tx.kind.MultiAsset?) && NeedsMetadata(rec, ValueLE(tx.amount)) ==> tx.originatorMetadata.Some?)
  }

  /** The mempool admits exactly the lawful transactions of registered assets. */
  lemma AdmittedExactly(ver: Verifier, m: Accounts, issuer: Option<IssuerRecord>, tx: SignedTx)
    ensures Validate(ver, m, issuer, tx) == Admitted <==> issuer.Some? && Lawful(ver, m, issuer.value, tx)
  {
    hide Canonical, AccountOf, Frozen, ValueLE, Nonce;
  }

  /** Every refusal names a rule that the transaction breaks. */
  lemma RefusalNamesRule(ver: Verifier, m: Accounts, issuer: Option<IssuerRecord>, tx: SignedTx)
    ensures var a := AccountOf(m, tx.signer);
            match Validate(ver, m, issuer, tx)
            case Admitted => true
            case InvalidSignature => !ver(tx.signer, Canonical(tx), tx.signature)
            case NonceMismatch => !tx.kind.Mint? && !tx.kind.Freeze? && tx.nonce != (Nonce(a) + 1) % TWO64
            case SenderFrozen => (tx.kind.Transfer? || tx.kind.Burn?) && Frozen(a)
            case UnknownAsset => issuer.None?
            case NotAuthorized =>
              && issuer.Some? && (tx.kind.Mint? || tx.kind.Burn? || tx.kind.Freeze?)
              && (|| tx.signer != issuer.value.authority
                  || !(if tx.kind.Mint? then issuer.value.mintEnabled
                       else if tx.kind.Burn? then issuer.value.burnEnabled else issuer.value.freezeEnabled))
            case NoCourtOrder => tx.kind.Freeze? && tx.courtOrderHash.None?
            case NoTravelRuleMetadata =>
              && issuer.Some? && (tx.kind.Transfer? || tx.kind.MultiAsset?)
              && NeedsMetadata(issuer.value, ValueLE(tx.amount)) && tx.originatorMetadata.None?
  {
    hide Canonical, AccountOf, Frozen, ValueLE, Nonce;
  }

  // ----- the record in force -----

  /** The last record registered for the asset, or the one that was there before. */
  function LastRegistered(evs: seq<Event>, assetId: u32, before: Option<IssuerRecord>): Option<IssuerRecord> {
    if evs == [] then before
    else
      var ev := evs[|evs| - 1];
      if ev.Register? && ev.rec.assetId == assetId then Some(ev.rec) else LastRegistered(evs[..|evs| - 1], assetId, before)
  }

  /** A registration whose asset has the same key in the registry. */
  ghost predicate KeysCollide(h: HashFn, evs: seq<Event>, assetId: u32) {
    exists i :: 0 <= i < |evs| && evs[i].Register? && Collision(h, IssuerKeyInput(assetId), IssuerKeyInput(evs[i].rec.assetId))
  }

  lemma KeyInputInjective(a: u32, b: u32)
    requires IssuerKeyInput(a) == IssuerKeyInput(b)
    ensures a == b
  {
    ConcatSplit(ISSUER_PREFIX, ToLE(a, 4), ISSUER_PREFIX, ToLE(b, 4));
    PowValues();
    ToLEInjective(a, b, 4);
  }

  lemma LookupAfter(h: HashFn, r: Registry, rec: IssuerRecord, assetId: u32)
    ensures || Collision(h, IssuerKeyInput(assetId), IssuerKeyInput(rec.assetId))
            || LookupIssuer(h, RegisterIssuer(h, r, rec), assetId)
               == if rec.assetId == assetId then Some(rec) else LookupIssuer(h, r, assetId)
  {
    hide IssuerKeyInput;
    if IssuerKeyInput(assetId) == IssuerKeyInput(rec.assetId) {
      KeyInputInjective(assetId, rec.assetId);
    }
  }

  lemma OnlyRegisterRegisters(h: HashFn, ver: Verifier, capacity: nat, s: State, ev: Event)
    ensures Next(h, ver, capacity, s, ev).registry == if ev.Register? then RegisterIssuer(h, s.registry, ev.rec) else s.registry
  {
    hide ApplyTx, Validate;
  }

  /** In every run, the record found for an asset is the one registered for it last, unless registry keys collide. */
  lemma {:induction false} LookupIsLast(h: HashFn, ver: Verifier, capacity: nat, s: State, evs: seq<Event>, assetId: u32)
    ensures || KeysCollide(h, evs, assetId)
            || LookupIssuer(h, Run(h, ver, capacity, s, evs).registry, assetId)
               == LastRegistered(evs, assetId, LookupIssuer(h, s.registry, assetId))
    decreases |evs|
  {
    hide LookupIssuer, RegisterIssuer, Next, IssuerKeyInput;
    if evs != [] {
      var init, ev := evs[..|evs| - 1], evs[|evs| - 1];
      LookupIsLast(h, ver, capacity, s, init, assetId);
      var p := Run(h, ver, capacity, s, init);
      OnlyRegisterRegisters(h, ver, capacity, p, ev);
      if KeysCollide(h, init, assetId) {
        var i :| 0 <= i < |init| && init[i].Register? && Collision(h, IssuerKeyInput(assetId), IssuerKeyInput(init[i].rec.assetId));
        assert evs[i] == init[i];
      } else if ev.Register? {
        LookupAfter(h, p.registry, ev.rec, assetId);
      }
    }
  }

  // ----- what is executed -----

  /**
   Every executed transaction was lawful when it was admitted: the event that admitted it is
   named, with the accounts of that moment and the record registered last for its asset.  So
   it was properly signed, in turn, unfrozen where that matters, signed by the authority when
   it changes the supply or freezes, and carries metadata when its amount calls for it.
   */
  lemma ExecutedWasLawful(h: HashFn, ver: Verifier, capacity: nat, s: State, evs: seq<Event>, i: nat)
    returns (k: nat, rec: IssuerRecord)
    requires Start(h, s) && i < |Run(h, ver, capacity, s, evs).executed|
    ensures var tx := Run(h, ver, capacity, s, evs).executed[i];
            && k < |evs| && evs[k] == Ingress(tx) && Lawful(ver, Run(h, ver, capacity, s, evs[..k]).accounts, rec, tx)
            && (KeysCollide(h, evs[..k], tx.assetId)
                || LastRegistered(evs[..k], tx.assetId, LookupIssuer(h, s.registry, tx.assetId)) == Some(rec))
  {
    hide Lawful, Validate, LookupIssuer, Next, Start;
    var tx := Run(h, ver, capacity, s, evs).executed[i];
    RunAuthority(h, ver, capacity, s, evs, tx);
    k, rec :| AdmitsAt(h, ver, capacity, s, evs, k, tx, rec);
    AdmittedExactly(ver, Run(h, ver, capacity, s, evs[..k]).accounts, Some(rec), tx);
    LookupIsLast(h, ver, capacity, s, evs[..k], tx.assetId);
  }

  // ----- the order of execution -----

  predicate Tail(all: seq<SignedTx>, q: seq<SignedTx>) {
    |q| <= |all| && all[|all| - |q|..] == q
  }

  /** The queue holds the transactions admitted last, in order; so what a step executes is the oldest not yet taken off. */
  lemma {:induction false} FirstInFirstOut(h: HashFn, ver: Verifier, capacity: nat, s: State, evs: seq<Event>)
    requires Start(h, s)
    ensures Tail(AdmittedIn(h, ver, capacity, s, evs), Run(h, ver, capacity, s, evs).queue)
    decreases |evs|
  {
    hide Next, Tail, Newly;
    if evs != [] {
      var init, ev := evs[..|evs| - 1], evs[|evs| - 1];
      FirstInFirstOut(h, ver, capacity, s, init);
      var p, all := Run(h, ver, capacity, s, init), AdmittedIn(h, ver, capacity, s, init);
      QueueMoves(h, ver, capacity, p, ev);
      TailMoves(all, p.queue, Next(h, ver, capacity, p, ev).queue);
    } else {
      EmptyTail();
    }
  }

  lemma EmptyTail()
    ensures Tail([], [])
  {
  }

  lemma QueueMoves(h: HashFn, ver: Verifier, capacity: nat, s: State, ev: Event)
    ensures var q, q' := s.queue, Next(h, ver, capacity, s, ev).queue;
            q' == q || (q != [] && q' == q[1..]) || (|q'| == |q| + 1 && q' == q + [q'[|q|]])
  {
    hide ApplyTx, Validate;
  }

  lemma TailMoves(all: seq<SignedTx>, q: seq<SignedTx>, q': seq<SignedTx>)
    requires Tail(all, q)
    requires q' == q || (q != [] && q' == q[1..]) || (|q'| == |q| + 1 && q' == q + [q'[|q|]])
    ensures Tail(all + Newly(q, q'), q')
  {
    if |q'| > |q| {
      assert Newly(q, q') == [q'[|q|]];
    } else {
      assert all + Newly(q, q') == all;
    }
  }
}
