/**
 The native executor (sequencer/src/trace.rs): what one transaction does to the account
 records it was given, and how that compares with the ternary transfer contract.
 */
module Executor {
  import opened Bytes
  import opened Encodings
  import opened AccountRecord
  import Contracts

  datatype Witness = Witness(epoch: u32, accounts: seq<Record>, amount: Bytes16, flag: byte)
  datatype TraceResult = TraceResult(updated: seq<Record>, success: bool)

  const EMPTY: Record := Zeros(64)

  function Amount(w: Witness): nat { ValueLE(w.amount) }

  lemma AmountBound(b: Bytes16)
    ensures ValueLE(b) < TWO128
  {
    ValueLEBound(b);
    PowValues();
  }

  /** The release build adds one to the nonce modulo 2^64. */
  function NextNonce(a: Record): u64 { (Nonce(a) + 1) % TWO64 }

  function Debited(a: Record, amount: nat, epoch: u32): Record
    requires amount <= Balance(a)
  {
    WithLastActive(WithNonce(WithBalance(a, Balance(a) - amount), NextNonce(a)), epoch)
  }

  function Credited(a: Record, amount: nat, epoch: u32): Record {
    WithLastActive(WithBalance(a, (Balance(a) + amount) % TWO128), epoch)
  }

  /** What a credited balance reads as: a sum that reaches the flag bit loses 2^127. */
  function Kept(sum: nat): nat { if sum < TWO127 then sum else sum - TWO127 }

  function Burned(a: Record, amount: nat, epoch: u32): Record
    requires amount <= Balance(a)
  {
    WithLastActive(WithBalance(a, Balance(a) - amount), epoch)
  }

  /** The outcome of one transaction on its witness. */
  function Native(kind: TxKind, w: Witness): Option<TraceResult>
    requires !kind.MultiAsset?
  {
    match kind
    case Freeze =>
      if |w.accounts| != 1 then None
      else Some(TraceResult([WithFrozen(w.accounts[0], w.flag != 0)], true))
    case Transfer =>
      if |w.accounts| != 2 then None
      else if Frozen(w.accounts[0]) || Balance(w.accounts[0]) < Amount(w) then Some(TraceResult([EMPTY, EMPTY], false))
      else Some(TraceResult([Debited(w.accounts[0], Amount(w), w.epoch), Credited(w.accounts[1], Amount(w), w.epoch)], true))
    case Mint =>
      if |w.accounts| != 1 then None
      else if Balance(w.accounts[0]) + Amount(w) >= TWO128 then Some(TraceResult([EMPTY], false))
      else Some(TraceResult([Credited(w.accounts[0], Amount(w), w.epoch)], true))
    case Burn =>
      if |w.accounts| != 1 then None
      else if Balance(w.accounts[0]) < Amount(w) then Some(TraceResult([EMPTY], false))
      else Some(TraceResult([Burned(w.accounts[0], Amount(w), w.epoch)], true))
  }

  /** A witness with the wrong number of accounts is an error; a failed transaction hands back blank records. */
  lemma FailureIsBlank(kind: TxKind, w: Witness)
    requires !kind.MultiAsset?
    ensures var r, n := Native(kind, w), if kind.Transfer? then 2 else 1;
            && (r.None? <==> |w.accounts| != n)
            && (r.Some? ==> |r.value.updated| == n)
            && (r.Some? && !r.value.success ==> forall i :: 0 <= i < n ==> r.value.updated[i] == Zeros(64))
  {
    hide Debited, Credited, Burned, WithFrozen, Balance, Frozen, ValueLE;
  }

  // ----- what the record updates mean -----

  lemma DebitedMeans(a: Record, amount: nat, epoch: u32)
    requires amount <= Balance(a)
    ensures var b := Debited(a, amount, epoch);
            && Balance(b) == Balance(a) - amount && Frozen(b) == Frozen(a) && Pubkey(b) == Pubkey(a)
            && Nonce(b) == NextNonce(a) && LastActive(b) == epoch
  {
    hide ValueLE, ToLE, Balance, Frozen, WithBalance, WithNonce, WithLastActive, NextNonce;
    FlagAndBalance(a);
    var x := WithBalance(a, Balance(a) - amount);
    SetBalanceExact(a, Balance(a) - amount);
    SetNonce(x, NextNonce(a));
    SetLastActive(WithNonce(x, NextNonce(a)), epoch);
  }

  lemma BurnedMeans(a: Record, amount: nat, epoch: u32)
    requires amount <= Balance(a)
    ensures var b := Burned(a, amount, epoch);
            && Balance(b) == Balance(a) - amount && Frozen(b) == Frozen(a) && Pubkey(b) == Pubkey(a)
            && Nonce(b) == Nonce(a) && LastActive(b) == epoch
  {
    hide ValueLE, ToLE, Balance, Frozen, WithBalance, WithLastActive;
    FlagAndBalance(a);
    SetBalanceExact(a, Balance(a) - amount);
    SetLastActive(WithBalance(a, Balance(a) - amount), epoch);
  }

  /** A credit adds up, and keeps the frozen flag, exactly while it stays below 2^127. */
  lemma CreditedMeans(a: Record, amount: nat, epoch: u32)
    requires amount < TWO128
    ensures var b := Credited(a, amount, epoch);
            && Pubkey(b) == Pubkey(a) && Nonce(b) == Nonce(a) && LastActive(b) == epoch
            && (Balance(b) == Balance(a) + amount && Frozen(b) == Frozen(a) <==> Balance(a) + amount < TWO127)
            && (Balance(a) + amount < TWO128 ==> Balance(b) == Kept(Balance(a) + amount))
            && (TWO127 <= Balance(a) + amount < TWO128 ==> Frozen(b))
  {
    hide ValueLE, ToLE, Balance, Frozen, WithBalance, WithLastActive, RawBalance;
    FlagAndBalance(a);
    var v := (Balance(a) + amount) % TWO128;
    SetBalanceExact(a, v);
    RawOfWithBalance(a, v);
    FlagAndBalance(WithBalance(a, v));
    SetLastActive(WithBalance(a, v), epoch);
  }

  lemma FreshIsEmpty(key: Bytes32)
    ensures Balance(Fresh(key)) == 0 && !Frozen(Fresh(key)) && Pubkey(Fresh(key)) == key
  {
    var a := Fresh(key);
    assert a[32..48] == Zeros(16);
    ValueLEZeros(16);
  }

  // ----- the executor's methods -----

  method RunFreeze(w: Witness) returns (r: Option<TraceResult>)
    ensures r == Native(Freeze, w)
  {
    if |w.accounts| != 1 {
      return None;
    }
    var a := new Account(w.accounts[0]);
    a.SetFrozen(w.flag != 0);
    r := Some(TraceResult([a.bytes[..]], true));
  }

  method Debit(a: Account, amount: nat, epoch: u32)
    requires a.Valid() && amount <= Balance(a.Contents())
    modifies a.bytes
    ensures a.Contents() == Debited(old(a.Contents()), amount, epoch)
  {
    hide ToLE, ValueLE, WithBalance, WithNonce, WithLastActive;
    var have := a.GetBalance();
    var nonce := a.GetNonce();
    SetBalanceExact(a.Contents(), have - amount);
    a.SetBalance(have - amount);
    a.SetNonceTo((nonce + 1) % TWO64);
    a.SetLastActiveTo(epoch);
  }

  method Credit(a: Account, amount: nat, epoch: u32)
    requires a.Valid()
    modifies a.bytes
    ensures a.Contents() == Credited(old(a.Contents()), amount, epoch)
  {
    var have := a.GetBalance();
    a.SetBalance((have + amount) % TWO128);
    a.SetLastActiveTo(epoch);
  }

  method RunTransfer(w: Witness) returns (r: Option<TraceResult>)
    ensures r == Native(Transfer, w)
  {
    if |w.accounts| != 2 {
      return None;
    }
    var from := new Account(w.accounts[0]);
    var to := new Account(w.accounts[1]);
    var amount := ValueLE(w.amount);
    AmountBound(w.amount);
    var frozen := from.IsFrozen();
    var have := from.GetBalance();
    if frozen || have < amount {
      return Some(TraceResult([EMPTY, EMPTY], false));
    }
    Debit(from, amount, w.epoch);
    Credit(to, amount, w.epoch);
    r := Some(TraceResult([from.bytes[..], to.bytes[..]], true));
  }

  method RunMint(w: Witness) returns (r: Option<TraceResult>)
    ensures r == Native(Mint, w)
  {
    if |w.accounts| != 1 {
      return None;
    }
    var to := new Account(w.accounts[0]);
    var amount := ValueLE(w.amount);
    AmountBound(w.amount);
    var held := to.GetBalance();
    if held + amount >= TWO128 {
      return Some(TraceResult([EMPTY], false));
    }
    Credit(to, amount, w.epoch);
    r := Some(TraceResult([to.bytes[..]], true));
  }

  method RunBurn(w: Witness) returns (r: Option<TraceResult>)
    ensures r == Native(Burn, w)
  {
    if |w.accounts| != 1 {
      return None;
    }
    var from := new Account(w.accounts[0]);
    var amount := ValueLE(w.amount);
    var have := from.GetBalance();
    if have < amount {
      return Some(TraceResult([EMPTY], false));
    }
    from.SetBalance(have - amount);
    from.SetLastActiveTo(w.epoch);
    r := Some(TraceResult([from.bytes[..]], true));
  }

  method RunNative(kind: TxKind, w: Witness) returns (r: Option<TraceResult>)
    requires !kind.MultiAsset?
    ensures r == Native(kind, w)
  {
    match kind {
      case Freeze => r := RunFreeze(w);
      case Transfer => r := RunTransfer(w);
      case Mint => r := RunMint(w);
      case Burn => r := RunBurn(w);
    }
  }

  // ----- the executor and the ternary contract -----

  /**
   On unfrozen records the executor and the ternary transfer succeed on the same inputs and
   write the same balance and nonce bytes.
   */
  lemma NativeMatchesTernary(from: Record, to: Record, amount: Bytes16, epoch: u32, flag: byte, out: Bytes)
    requires !Frozen(from) && !Frozen(to)
    requires Contracts.TransferResult(from[32..48], to[32..48], amount, from[48..56], out)
    ensures var r := Native(Transfer, Witness(epoch, [from, to], amount, flag)).value;
            && (r.success <==> Contracts.Covers(from[32..48], to[32..48], amount))
            && (r.success ==> && r.updated[0][32..48] == out[0..16] && r.updated[1][32..48] == out[16..32]
                              && r.updated[0][48..56] == out[32..40])
            && (!r.success ==> out == Zeros(40))
  {
    CoveredWhenFunded(from, to, amount);
    if Balance(from) >= ValueLE(amount) {
      FundedMatch(from, to, amount, epoch, out);
    }
  }

  /** The credit of an unfrozen account cannot overflow 128 bits. */
  lemma CoveredWhenFunded(from: Record, to: Record, amount: Bytes16)
    requires !Frozen(from) && !Frozen(to)
    ensures Contracts.Covers(from[32..48], to[32..48], amount) <==> Balance(from) >= ValueLE(amount)
  {
    FlagAndBalance(from);
    FlagAndBalance(to);
  }

  lemma FundedMatch(from: Record, to: Record, amount: Bytes16, epoch: u32, out: Bytes)
    requires !Frozen(from) && !Frozen(to) && Balance(from) >= ValueLE(amount)
    requires Contracts.TransferResult(from[32..48], to[32..48], amount, from[48..56], out)
    ensures var a := ValueLE(amount);
            && Debited(from, a, epoch)[32..48] == out[0..16] && Debited(from, a, epoch)[48..56] == out[32..40]
            && Credited(to, a, epoch)[32..48] == out[16..32]
  {
    hide Debited, Credited, ValueLE, Frozen;
    var a := ValueLE(amount);
    CoveredWhenFunded(from, to, amount);
    FlagAndBalance(from);
    FlagAndBalance(to);
    DebitMatches(from, a, epoch, out);
    CreditMatches(to, a, epoch, out);
  }

  lemma DebitMatches(from: Record, a: nat, epoch: u32, out: Bytes)
    requires !Frozen(from) && a <= Balance(from) && |out| == 40
    requires ValueLE(out[0..16]) == Balance(from) - a && ValueLE(out[32..40]) == NextNonce(from)
    ensures Debited(from, a, epoch)[32..48] == out[0..16] && Debited(from, a, epoch)[48..56] == out[32..40]
  {
    hide Debited, ValueLE, Frozen;
    var b := Debited(from, a, epoch);
    DebitedMeans(from, a, epoch);
    FlagAndBalance(b);
    SameField(b, 32, 48, out, 0);
    SameField(b, 48, 56, out, 32);
  }

  lemma CreditMatches(to: Record, a: nat, epoch: u32, out: Bytes)
    requires !Frozen(to) && Balance(to) + a < TWO128 && |out| == 40 && ValueLE(out[16..32]) == Balance(to) + a
    ensures Credited(to, a, epoch)[32..48] == out[16..32]
  {
    CreditedRaw(to, a, epoch);
    SameField(Credited(to, a, epoch), 32, 48, out, 16);
  }

  lemma CreditedRaw(a: Record, amount: nat, epoch: u32)
    requires !Frozen(a) && Balance(a) + amount < TWO128
    ensures RawBalance(Credited(a, amount, epoch)) == Balance(a) + amount
  {
    var v := Balance(a) + amount;
    assert v % TWO128 == v;
    RawOfWithBalance(a, v);
    SetLastActive(WithBalance(a, v), epoch);
  }

  lemma SameField(a: Record, lo: nat, hi: nat, out: Bytes, at: nat)
    requires lo <= hi <= 64 && at + hi - lo <= |out| && ValueLE(a[lo..hi]) == ValueLE(out[at..at + hi - lo])
    ensures a[lo..hi] == out[at..at + hi - lo]
  {
    ValueLEInjective(a[lo..hi], out[at..at + hi - lo]);
  }
}
