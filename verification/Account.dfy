/**
 The 64-byte account record (crypto/src/account.rs): public key, balance, nonce and last
 activity, little-endian, with the frozen flag in the top bit of the balance.
 */
module AccountRecord {
  import opened Bytes

  type Record = Bytes64

  function Pubkey(a: Record): Bytes32 { a[0..32] }
  function RawBalance(a: Record): nat { ValueLE(a[32..48]) }
  function Balance(a: Record): nat { RawBalance(a) % TWO127 }
  function Nonce(a: Record): nat { ValueLE(a[48..56]) }
  function LastActive(a: Record): nat { ValueLE(a[56..64]) }
  predicate Frozen(a: Record) { a[47] >= 128 }

  function Fresh(key: Bytes32): Record { key + Zeros(32) }

  /** The record with `b` written at offset `at`. */
  function Overwrite(a: Record, at: nat, b: Bytes): Record
    requires at + |b| <= 64
  {
    a[..at] + b + a[at + |b|..]
  }

  function WithFrozen(a: Record, f: bool): Record {
    a[47 := a[47] % 128 + if f then 128 else 0]
  }

  function WithBalance(a: Record, v: u128): Record {
    var b := Overwrite(a, 32, ToLE(v, 16));
    if Frozen(a) then WithFrozen(b, true) else b
  }

  function WithNonce(a: Record, n: u64): Record { Overwrite(a, 48, ToLE(n, 8)) }
  function WithLastActive(a: Record, t: u64): Record { Overwrite(a, 56, ToLE(t, 8)) }

  // ----- the shared bit -----

  /** Sixteen bytes split into the low 15 and the top one. */
  lemma TopByte(s: Bytes)
    requires |s| == 16
    ensures ValueLE(s) == ValueLE(s[..15]) + TWO120 * s[15]
    ensures ValueLE(s[..15]) < TWO120
  {
    hide ValueLE, Pow256;
    ValueLEAppend(s, 15);
    assert s[..16] == s;
    ValueLEBound(s[..15]);
    PowTop();
  }

  lemma PowTop()
    ensures Pow256(15) == TWO120
  {
    PowValues();
    assert Pow256(16) == 256 * Pow256(15);
  }

  /** The flag is the top bit of the raw balance, and the balance is the rest. */
  lemma FlagAndBalance(a: Record)
    ensures Frozen(a) <==> RawBalance(a) >= TWO127
    ensures Balance(a) == RawBalance(a) - (if Frozen(a) then TWO127 else 0) && RawBalance(a) < TWO128
  {
    TopByte(a[32..48]);
  }

  lemma OverwriteField(a: Record, at: nat, b: Bytes, lo: nat, hi: nat)
    requires at + |b| <= 64 && lo <= hi <= 64 && (hi <= at || at + |b| <= lo)
    ensures Overwrite(a, at, b)[lo..hi] == a[lo..hi] && Overwrite(a, at, b)[at..at + |b|] == b
  {
  }

  lemma FrozenRaw(a: Record, f: bool)
    ensures RawBalance(WithFrozen(a, f)) == Balance(a) + if f then TWO127 else 0
    ensures Frozen(WithFrozen(a, f)) == f
    ensures WithFrozen(a, f)[0..32] == a[0..32] && WithFrozen(a, f)[48..64] == a[48..64]
  {
    hide ValueLE;
    var s, t := a[32..48], WithFrozen(a, f)[32..48];
    TopByte(s);
    TopByte(t);
    assert s[..15] == t[..15];
    FlagAndBalance(a);
  }

  /** Setting the flag changes nothing but the flag. */
  lemma SetFrozenKeepsBalance(a: Record, f: bool)
    ensures var b := WithFrozen(a, f);
            && Balance(b) == Balance(a) && Frozen(b) == f
            && Pubkey(b) == Pubkey(a) && Nonce(b) == Nonce(a) && LastActive(b) == LastActive(a)
  {
    var b := WithFrozen(a, f);
    FrozenRaw(a, f);
    FlagAndBalance(b);
    assert b[48..64][0..8] == b[48..56] && b[48..64][8..16] == b[56..64];
    assert a[48..64][0..8] == a[48..56] && a[48..64][8..16] == a[56..64];
  }

  lemma RawOfWithBalance(a: Record, v: u128)
    ensures RawBalance(WithBalance(a, v)) == if Frozen(a) && v < TWO127 then v + TWO127 else v
  {
    var b := Overwrite(a, 32, ToLE(v, 16));
    OverwriteField(a, 32, ToLE(v, 16), 0, 0);
    PowValues();
    ValueToLE(v, 16);
    assert RawBalance(b) == v;
    FlagAndBalance(b);
    FrozenRaw(b, true);
  }

  /**
   A written balance reads back, with the flag as it was, exactly when it is below 2^127.
   The other fields never change.
   */
  lemma SetBalanceExact(a: Record, v: u128)
    ensures var b := WithBalance(a, v);
            && (Balance(b) == v && Frozen(b) == Frozen(a) <==> v < TWO127)
            && Pubkey(b) == Pubkey(a) && Nonce(b) == Nonce(a) && LastActive(b) == LastActive(a)
  {
    var b := WithBalance(a, v);
    RawOfWithBalance(a, v);
    FlagAndBalance(a);
    FlagAndBalance(b);
    var w := Overwrite(a, 32, ToLE(v, 16));
    assert w[0..32] == a[0..32] && w[48..56] == a[48..56] && w[56..64] == a[56..64];
    assert b[0..32] == w[0..32] && b[48..56] == w[48..56] && b[56..64] == w[56..64];
  }

  /** The trap behind the bound: a balance of 2^127 or more freezes the account and reads as 2^127 less. */
  lemma LargeBalanceFreezes(a: Record, v: u128)
    requires v >= TWO127
    ensures var b := WithBalance(a, v); Frozen(b) && Balance(b) == v - TWO127
  {
    RawOfWithBalance(a, v);
    FlagAndBalance(WithBalance(a, v));
  }

  lemma SetNonce(a: Record, n: u64)
    ensures var b := WithNonce(a, n);
            && Nonce(b) == n && b[48..56] == ToLE(n, 8) && b[32..48] == a[32..48]
            && Balance(b) == Balance(a) && Frozen(b) == Frozen(a) && Pubkey(b) == Pubkey(a) && LastActive(b) == LastActive(a)
  {
    OverwriteField(a, 48, ToLE(n, 8), 32, 48);
    OverwriteField(a, 48, ToLE(n, 8), 0, 32);
    OverwriteField(a, 48, ToLE(n, 8), 56, 64);
    PowValues();
    ValueToLE(n, 8);
  }

  lemma SetLastActive(a: Record, t: u64)
    ensures var b := WithLastActive(a, t);
            && LastActive(b) == t && b[32..48] == a[32..48] && b[48..56] == a[48..56]
            && Balance(b) == Balance(a) && Frozen(b) == Frozen(a) && Pubkey(b) == Pubkey(a) && Nonce(b) == Nonce(a)
  {
    OverwriteField(a, 56, ToLE(t, 8), 32, 48);
    OverwriteField(a, 56, ToLE(t, 8), 48, 56);
    OverwriteField(a, 56, ToLE(t, 8), 0, 32);
    PowValues();
    ValueToLE(t, 8);
  }

  // ----- the record as an object -----

  class Account {
    const bytes: array<byte>

    ghost predicate Valid() { bytes.Length == 64 }

    ghost function Contents(): Record
      requires Valid()
      reads bytes
    {
      bytes[..]
    }

    /** A copy of a record. */
    constructor (a: Record)
      ensures Valid() && fresh(bytes) && Contents() == a
    {
      bytes := new byte[64](i requires 0 <= i < 64 => a[i]);
    }

    method GetBalance() returns (r: nat)
      requires Valid()
      ensures r == Balance(Contents())
    {
      var b := bytes[32..48];
      b := b[15 := b[15] % 128];
      r := ValueLE(b);
      FrozenRaw(Contents(), false);
      assert b == WithFrozen(Contents(), false)[32..48];
    }

    method IsFrozen() returns (f: bool)
      requires Valid()
      ensures f == Frozen(Contents())
    {
      f := bytes[47] >= 128;
    }

    method GetNonce() returns (r: nat)
      requires Valid()
      ensures r == Nonce(Contents())
    {
      r := ValueLE(bytes[48..56]);
    }

    /** Copy a byte string into the record. */
    method CopyIn(at: nat, b: Bytes)
      requires Valid() && at + |b| <= 64
      modifies bytes
      ensures Contents() == Overwrite(old(Contents()), at, b)
    {
      forall i | 0 <= i < |b| {
        bytes[at + i] := b[i];
      }
    }

    method SetFrozen(f: bool)
      requires Valid()
      modifies bytes
      ensures Contents() == WithFrozen(old(Contents()), f)
    {
      if f {
        bytes[47] := if bytes[47] >= 128 then bytes[47] else bytes[47] + 128;
      } else {
        bytes[47] := bytes[47] % 128;
      }
    }

    method SetBalance(v: u128)
      requires Valid()
      modifies bytes
      ensures Contents() == WithBalance(old(Contents()), v)
    {
      var frozen := IsFrozen();
      CopyIn(32, ToLE(v, 16));
      if frozen {
        SetFrozen(true);
      }
    }

    method SetNonceTo(n: u64)
      requires Valid()
      modifies bytes
      ensures Contents() == WithNonce(old(Contents()), n)
    {
      CopyIn(48, ToLE(n, 8));
    }

    method SetLastActiveTo(t: u64)
      requires Valid()
      modifies bytes
      ensures Contents() == WithLastActive(old(Contents()), t)
    {
      CopyIn(56, ToLE(t, 8));
    }
  }
}
