/**
 Multi-byte arithmetic as chains of byte networks (agent_contracts/src/guarded.rs and
 ternary_vm/src/primitives/transfer_check.rs, transfer_finalize.rs).  The chains work at
 any width; the program uses 16 and 8 bytes.
 */
module Chains {
  import opened Bytes
  import opened Network
  import opened ByteNetworks

  predicate IsAdder(net: TernaryNetwork) {
    net.layers == AddLayers()
  }

  predicate IsSubtractor(net: TernaryNetwork) {
    net.layers == SubLayers()
  }

  /** One more byte of a sum. */
  lemma AddStep(a: Bytes, b: Bytes, sum: Bytes, i: nat, c: byte, start: byte)
    requires |a| == |b| && i < |a| && |sum| == i + 1 && c <= 1
    requires ValueLE(a[..i]) + ValueLE(b[..i]) + start == ValueLE(sum[..i]) + c * Pow256(i)
    requires sum[i] == SumByte(a[i], b[i], c).0
    ensures ValueLE(a[..i + 1]) + ValueLE(b[..i + 1]) + start
         == ValueLE(sum) + SumByte(a[i], b[i], c).1 * Pow256(i + 1)
  {
    ValueLEAppend(a, i);
    ValueLEAppend(b, i);
    ValueLEAppend(sum, i);
    assert sum[..i + 1] == sum;
    AddArith(ValueLE(a[..i]), ValueLE(b[..i]), ValueLE(sum[..i]), Pow256(i),
             a[i], b[i], sum[i], c, SumByte(a[i], b[i], c).1, start);
  }

  lemma AddArith(va: int, vb: int, vs: int, p: int, x: int, y: int, s: int, c: int, c': int, start: int)
    requires va + vb + start == vs + c * p && x + y + c == s + 256 * c'
    ensures va + p * x + (vb + p * y) + start == vs + p * s + c' * (256 * p)
  {
    assert p * (x + y + c) == p * (s + 256 * c');
  }

  /** One more byte of a difference. */
  lemma SubStep(a: Bytes, b: Bytes, diff: Bytes, i: nat, c: byte)
    requires |a| == |b| && i < |a| && |diff| == i + 1 && c <= 1
    requires ValueLE(a[..i]) - ValueLE(b[..i]) == ValueLE(diff[..i]) - c * Pow256(i)
    requires diff[i] == DiffByte(a[i], b[i], c).0
    ensures ValueLE(a[..i + 1]) - ValueLE(b[..i + 1])
         == ValueLE(diff) - DiffByte(a[i], b[i], c).1 * Pow256(i + 1)
  {
    ValueLEAppend(a, i);
    ValueLEAppend(b, i);
    ValueLEAppend(diff, i);
    assert diff[..i + 1] == diff;
    SubArith(ValueLE(a[..i]), ValueLE(b[..i]), ValueLE(diff[..i]), Pow256(i),
             a[i], b[i], diff[i], c, DiffByte(a[i], b[i], c).1);
  }

  lemma SubArith(va: int, vb: int, vd: int, p: int, x: int, y: int, d: int, c: int, c': int)
    requires va - vb == vd - c * p && x - y - c == d - 256 * c'
    ensures va + p * x - (vb + p * y) == vd + p * d - c' * (256 * p)
  {
    assert p * (x - y - c) == p * (d - 256 * c');
  }

  method AddChain(net: TernaryNetwork, a: Bytes, b: Bytes) returns (r: Result<(Bytes, byte), Error>)
    requires net.Shaped() && |a| == |b|
    ensures r.Ok? ==> |r.value.0| == |a| && r.value.1 <= 1
    ensures IsAdder(net) ==> r.Ok? && ValueLE(a) + ValueLE(b) == ValueLE(r.value.0) + r.value.1 * Pow256(|a|)
  {
    var sum: Bytes, carry: byte := [], 0;
    for i := 0 to |a|
      invariant |sum| == i && carry <= 1
      invariant IsAdder(net) ==> ValueLE(a[..i]) + ValueLE(b[..i]) + 0 == ValueLE(sum) + carry * Pow256(i)
    {
      var step := RunAdd(net, a[i], b[i], carry);
      if step.Err? {
        return Err(step.error);
      }
      assert (sum + [step.value.0])[..i] == sum;
      if IsAdder(net) { AddStep(a, b, sum + [step.value.0], i, carry, 0); }
      sum, carry := sum + [step.value.0], step.value.1;
    }
    assert a[..|a|] == a && b[..|b|] == b;
    r := Ok((sum, carry));
  }

  method SubChain(net: TernaryNetwork, a: Bytes, b: Bytes) returns (r: Result<(Bytes, byte), Error>)
    requires net.Shaped() && |a| == |b|
    ensures r.Ok? ==> |r.value.0| == |a| && r.value.1 <= 1
    ensures IsSubtractor(net) ==> r.Ok? && ValueLE(a) - ValueLE(b) == ValueLE(r.value.0) - r.value.1 * Pow256(|a|)
  {
    var diff: Bytes, borrow: byte := [], 0;
    for i := 0 to |a|
      invariant |diff| == i && borrow <= 1
      invariant IsSubtractor(net) ==> ValueLE(a[..i]) - ValueLE(b[..i]) == ValueLE(diff) - borrow * Pow256(i)
    {
      var step := RunSub(net, a[i], b[i], borrow);
      if step.Err? {
        return Err(step.error);
      }
      assert (diff + [step.value.0])[..i] == diff;
      if IsSubtractor(net) { SubStep(a, b, diff + [step.value.0], i, borrow); }
      diff, borrow := diff + [step.value.0], step.value.1;
    }
    assert a[..|a|] == a && b[..|b|] == b;
    r := Ok((diff, borrow));
  }

  /** The final borrow of a subtraction is the outcome of the comparison. */
  lemma BorrowDecides(a: Bytes, b: Bytes, diff: Bytes, borrow: byte)
    requires |a| == |b| == |diff| && borrow <= 1
    requires ValueLE(a) - ValueLE(b) == ValueLE(diff) - borrow * Pow256(|a|)
    ensures borrow == 0 <==> ValueLE(a) >= ValueLE(b)
    ensures borrow == 0 ==> ValueLE(diff) == ValueLE(a) - ValueLE(b)
  {
    ValueLEBound(diff);
    OneOrZero(borrow, Pow256(|a|));
  }

  lemma OneOrZero(c: nat, p: nat)
    requires c <= 1
    ensures c * p == if c == 0 then 0 else p
  {
  }

  /** The final carry of an addition says whether the sum fits. */
  lemma CarryDecides(a: Bytes, b: Bytes, sum: Bytes, carry: byte)
    requires |a| == |b| == |sum| && carry <= 1
    requires ValueLE(a) + ValueLE(b) == ValueLE(sum) + carry * Pow256(|a|)
    ensures carry == 0 <==> ValueLE(a) + ValueLE(b) < Pow256(|a|)
    ensures carry == 0 ==> ValueLE(sum) == ValueLE(a) + ValueLE(b)
  {
    ValueLEBound(sum);
    OneOrZero(carry, Pow256(|a|));
  }

  /** Is `from` at least `amount`? */
  method TransferCheck(net: TernaryNetwork, from: Bytes, amount: Bytes) returns (r: Result<byte, Error>)
    requires net.Shaped() && |from| == |amount|
    ensures IsSubtractor(net) ==> r == Ok(if ValueLE(from) >= ValueLE(amount) then 1 else 0)
  {
    var borrow: byte := 0;
    ghost var diff: Bytes := [];
    for i := 0 to |from|
      invariant |diff| == i && borrow <= 1
      invariant IsSubtractor(net) ==> ValueLE(from[..i]) - ValueLE(amount[..i]) == ValueLE(diff) - borrow * Pow256(i)
    {
      var step := RunSub(net, from[i], amount[i], borrow);
      if step.Err? {
        return Err(step.error);
      }
      assert (diff + [step.value.0])[..i] == diff;
      if IsSubtractor(net) { SubStep(from, amount, diff + [step.value.0], i, borrow); }
      diff := diff + [step.value.0];
      borrow := step.value.1;
    }
    assert from[..|from|] == from && amount[..|amount|] == amount;
    if IsSubtractor(net) { BorrowDecides(from, amount, diff, borrow); }
    r := Ok(1 - borrow);
  }

  /** Add one, modulo the width. */
  method TransferFinalize(net: TernaryNetwork, nonce: Bytes) returns (r: Result<Bytes, Error>)
    requires net.Shaped()
    ensures r.Ok? ==> |r.value| == |nonce|
    ensures IsAdder(net) ==> r.Ok? && ValueLE(r.value) == (ValueLE(nonce) + 1) % Pow256(|nonce|)
  {
    var out: Bytes, carry: byte := [], 1;
    ghost var zeros := Zeros(|nonce|);
    for i := 0 to |nonce|
      invariant |out| == i && carry <= 1
      invariant IsAdder(net) ==> ValueLE(nonce[..i]) + ValueLE(zeros[..i]) + 1 == ValueLE(out) + carry * Pow256(i)
    {
      var step := RunAdd(net, nonce[i], 0, carry);
      if step.Err? {
        return Err(step.error);
      }
      assert (out + [step.value.0])[..i] == out;
      if IsAdder(net) { AddStep(nonce, zeros, out + [step.value.0], i, carry, 1); }
      out, carry := out + [step.value.0], step.value.1;
    }
    assert nonce[..|nonce|] == nonce && zeros[..|nonce|] == zeros;
    ValueLEZeros(|nonce|);
    ValueLEBound(out);
    if IsAdder(net) { ModOnce(ValueLE(nonce) + 1, ValueLE(out), carry, Pow256(|nonce|)); }
    r := Ok(out);
  }

  lemma ModOnce(v: nat, low: nat, c: nat, p: nat)
    requires v == low + c * p && low < p && c <= 1
    ensures v % p == low
  {
    DivUnique(v, p, c, low);
  }

  /** Compare two 8-byte integers by zero-extending them to 16 bytes. */
  method U64Ge(net: TernaryNetwork, a: Bytes, b: Bytes) returns (r: Result<byte, Error>)
    requires net.Shaped() && |a| == |b| == 8
    ensures IsSubtractor(net) ==> r == Ok(if ValueLE(a) >= ValueLE(b) then 1 else 0)
  {
    ValueLEConcat(a, Zeros(8));
    ValueLEConcat(b, Zeros(8));
    ValueLEZeros(8);
    r := TransferCheck(net, a + Zeros(8), b + Zeros(8));
  }
}
