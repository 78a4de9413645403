/**
 The guarded transfers and the swap (agent_contracts/src/guarded.rs, conditional.rs,
 swap.rs, inference.rs).  A contract holds the networks its constructor built; what it
 computes is stated for those, and the error paths for any networks.
 */
module Contracts {
  import opened Bytes
  import Network
  import opened ByteNetworks
  import opened Chains

  type TernaryNetwork = Network.TernaryNetwork
  type Layer = Network.Layer

  datatype ContractError = InputShape(got: nat, expected: nat) | Vm(error: Network.Error)

  /** The two arithmetic networks every contract carries. */
  datatype Nets = Nets(add: TernaryNetwork, sub: TernaryNetwork)
  {
    predicate Shaped() { add.Shaped() && sub.Shaped() }
    predicate Built() { IsAdder(add) && IsSubtractor(sub) }
  }

  method Build() returns (nets: Nets)
    ensures nets.Built() && nets.Shaped()
  {
    var add := BuildAdd();
    var sub := BuildSub();
    nets := Nets(add, sub);
  }

  // ----- what a transfer means -----

  predicate Covers(from: Bytes, to: Bytes, amount: Bytes) {
    ValueLE(from) >= ValueLE(amount) && ValueLE(to) + ValueLE(amount) < TWO128
  }

  /** 40 bytes: the debited balance, the credited balance and the next nonce, or zeros. */
  predicate TransferResult(from: Bytes, to: Bytes, amount: Bytes, nonce: Bytes, out: Bytes) {
    && |out| == 40
    && if Covers(from, to, amount) then
         && ValueLE(out[0..16]) == ValueLE(from) - ValueLE(amount)
         && ValueLE(out[16..32]) == ValueLE(to) + ValueLE(amount)
         && ValueLE(out[32..40]) == (ValueLE(nonce) + 1) % TWO64
       else out == Zeros(40)
  }

  /** The 56 financial bytes of a witness, guarded. */
  predicate Guarded(input: Bytes, guard: bool, out: Bytes)
    requires |input| >= 56
  {
    if guard then TransferResult(input[0..16], input[16..32], input[32..48], input[48..56], out) else out == Zeros(40)
  }

  /** The output either is the no-op or moves money without creating or losing any. */
  predicate NoOpOrConserves(input: Bytes, out: Bytes)
    requires |input| >= 56
  {
    || out == Zeros(40)
    || (&& |out| == 40
        && ValueLE(out[0..16]) + ValueLE(out[16..32]) == ValueLE(input[0..16]) + ValueLE(input[16..32])
        && ValueLE(out[16..32]) - ValueLE(input[16..32]) == ValueLE(input[32..48])
        && ValueLE(out[32..40]) == (ValueLE(input[48..56]) + 1) % TWO64)
  }

  /** A guard and a witness fix the output, and the output conserves the two-party total. */
  lemma GuardedIsExact(input: Bytes, guard: bool, out: Bytes, out': Bytes)
    requires |input| >= 56 && Guarded(input, guard, out) && Guarded(input, guard, out')
    ensures out == out' && NoOpOrConserves(input, out)
    ensures guard && Covers(input[0..16], input[16..32], input[32..48]) && out == Zeros(40)
        ==> ValueLE(input[48..56]) == TWO64 - 1
  {
    if guard && Covers(input[0..16], input[16..32], input[32..48]) {
      ValueLEInjective(out[0..16], out'[0..16]);
      ValueLEInjective(out[16..32], out'[16..32]);
      ValueLEInjective(out[32..40], out'[32..40]);
      assert out == out[0..16] + out[16..32] + out[32..40];
      assert out' == out'[0..16] + out'[16..32] + out'[32..40];
      ValueLEBound(input[48..56]);
      PowValues();
      if out == Zeros(40) {
        assert out[32..40] == Zeros(8);
        ValueLEZeros(8);
      }
    }
  }

  method WrappedTransfer(nets: Nets, from: Bytes, to: Bytes, amount: Bytes, nonce: Bytes) returns (r: Result<Bytes, ContractError>)
    requires nets.Shaped() && |from| == |to| == |amount| == 16 && |nonce| == 8
    ensures nets.Built() ==> r.Ok? && TransferResult(from, to, amount, nonce, r.value)
  {
    var check := TransferCheck(nets.sub, from, amount);
    if check.Err? { return Err(Vm(check.error)); }
    if check.value != 1 {
      return Ok(Zeros(40));
    }
    var sub := SubChain(nets.sub, from, amount);
    if sub.Err? { return Err(Vm(sub.error)); }
    var add := AddChain(nets.add, to, amount);
    if add.Err? { return Err(Vm(add.error)); }
    if nets.Built() {
      PowValues();
      BorrowDecides(from, amount, sub.value.0, sub.value.1);
      CarryDecides(to, amount, add.value.0, add.value.1);
    }
    if add.value.1 == 1 {
      return Ok(Zeros(40));
    }
    var fin := TransferFinalize(nets.add, nonce);
    if fin.Err? { return Err(Vm(fin.error)); }
    var out := sub.value.0 + add.value.0 + fin.value;
    assert out[0..16] == sub.value.0 && out[16..32] == add.value.0 && out[32..40] == fin.value;
    r := Ok(out);
  }

  // ----- contracts gated by a flag, a clock or signatures -----

  method TimeLockedRelease(nets: Nets, input: Bytes) returns (r: Result<Bytes, ContractError>)
    requires nets.Shaped()
    ensures |input| != 72 ==> r == Err(InputShape(|input|, 72))
    ensures |input| == 72 && nets.Built() ==>
              r.Ok? && Guarded(input, ValueLE(input[56..64]) >= ValueLE(input[64..72]), r.value)
  {
    if |input| != 72 {
      return Err(InputShape(|input|, 72));
    }
    var open := U64Ge(nets.sub, input[56..64], input[64..72]);
    if open.Err? { return Err(Vm(open.error)); }
    if open.value != 1 {
      return Ok(Zeros(40));
    }
    r := WrappedTransfer(nets, input[0..16], input[16..32], input[32..48], input[48..56]);
  }

  /** At least two of three flags are set, and all three are flags. */
  predicate TwoOfThree(a: byte, b: byte, c: byte) {
    a <= 1 && b <= 1 && c <= 1 && ((a == 1 && b == 1) || (a == 1 && c == 1) || (b == 1 && c == 1))
  }

  method Multisig2of3(nets: Nets, input: Bytes) returns (r: Result<Bytes, ContractError>)
    requires nets.Shaped()
    ensures |input| != 59 ==> r == Err(InputShape(|input|, 59))
    ensures |input| == 59 && nets.Built() ==>
              r.Ok? && Guarded(input, TwoOfThree(input[56], input[57], input[58]), r.value)
  {
    if |input| != 59 {
      return Err(InputShape(|input|, 59));
    }
    var s0, s1, s2 := input[56], input[57], input[58];
    if s0 > 1 || s1 > 1 || s2 > 1 {
      return Ok(Zeros(40));
    }
    if s0 + s1 + s2 < 2 {
      return Ok(Zeros(40));
    }
    r := WrappedTransfer(nets, input[0..16], input[16..32], input[32..48], input[48..56]);
  }

  method ConditionalPayment(nets: Nets, input: Bytes) returns (r: Result<Bytes, ContractError>)
    requires nets.Shaped()
    ensures |input| != 57 ==> r == Err(InputShape(|input|, 57))
    ensures |input| == 57 && nets.Built() ==> r.Ok? && Guarded(input, input[56] == 1, r.value)
  {
    if |input| != 57 {
      return Err(InputShape(|input|, 57));
    }
    if input[56] != 1 {
      return Ok(Zeros(40));
    }
    r := WrappedTransfer(nets, input[0..16], input[16..32], input[32..48], input[48..56]);
  }

  // ----- swap -----

  /** Both sides can pay, and neither credit overflows. */
  predicate SwapFires(i: Bytes)
    requires |i| == 104
  {
    && ValueLE(i[0..16]) >= ValueLE(i[64..80]) && ValueLE(i[48..64]) >= ValueLE(i[80..96])
    && ValueLE(i[16..32]) + ValueLE(i[80..96]) < TWO128 && ValueLE(i[32..48]) + ValueLE(i[64..80]) < TWO128
  }

  predicate SwapResult(i: Bytes, out: Bytes)
    requires |i| == 104
  {
    && |out| == 72
    && if SwapFires(i) then
         && ValueLE(out[0..16]) == ValueLE(i[0..16]) - ValueLE(i[64..80])
         && ValueLE(out[16..32]) == ValueLE(i[16..32]) + ValueLE(i[80..96])
         && ValueLE(out[32..48]) == ValueLE(i[32..48]) + ValueLE(i[64..80])
         && ValueLE(out[48..64]) == ValueLE(i[48..64]) - ValueLE(i[80..96])
         && ValueLE(out[64..72]) == (ValueLE(i[96..104]) + 1) % TWO64
       else out == Zeros(72)
  }

  /** A swap conserves the two-party total of each of the two assets. */
  lemma SwapConserves(i: Bytes, out: Bytes)
    requires |i| == 104 && SwapResult(i, out)
    ensures out == Zeros(72)
         || (&& ValueLE(out[0..16]) + ValueLE(out[32..48]) == ValueLE(i[0..16]) + ValueLE(i[32..48])
             && ValueLE(out[16..32]) + ValueLE(out[48..64]) == ValueLE(i[16..32]) + ValueLE(i[48..64])
             && ValueLE(out[64..72]) == (ValueLE(i[96..104]) + 1) % TWO64)
  {
  }

  method Swap(nets: Nets, input: Bytes) returns (r: Result<Bytes, ContractError>)
    requires nets.Shaped()
    ensures |input| != 104 ==> r == Err(InputShape(|input|, 104))
    ensures |input| == 104 && nets.Built() ==> r.Ok? && SwapResult(input, r.value)
  {
    hide ValueLE, Pow256;
    if |input| != 104 {
      return Err(InputShape(|input|, 104));
    }
    var senderIn, senderOut, recipientIn, recipientOut := input[0..16], input[16..32], input[32..48], input[48..64];
    var amountIn, amountOut, nonce := input[64..80], input[80..96], input[96..104];
    var pays := TransferCheck(nets.sub, senderIn, amountIn);
    if pays.Err? { return Err(Vm(pays.error)); }
    if pays.value != 1 { return Ok(Zeros(72)); }
    var repays := TransferCheck(nets.sub, recipientOut, amountOut);
    if repays.Err? { return Err(Vm(repays.error)); }
    if repays.value != 1 { return Ok(Zeros(72)); }
    var a := SubChain(nets.sub, senderIn, amountIn);
    if a.Err? { return Err(Vm(a.error)); }
    var b := AddChain(nets.add, senderOut, amountOut);
    if b.Err? { return Err(Vm(b.error)); }
    var c := AddChain(nets.add, recipientIn, amountIn);
    if c.Err? { return Err(Vm(c.error)); }
    var d := SubChain(nets.sub, recipientOut, amountOut);
    if d.Err? { return Err(Vm(d.error)); }
    if nets.Built() {
      CarryFits(senderOut, amountOut, b.value.0, b.value.1);
      CarryFits(recipientIn, amountIn, c.value.0, c.value.1);
    }
    if b.value.1 == 1 || c.value.1 == 1 { return Ok(Zeros(72)); }
    var fin := TransferFinalize(nets.add, nonce);
    if fin.Err? { return Err(Vm(fin.error)); }
    if nets.Built() {
      PowValues();
      BorrowDecides(senderIn, amountIn, a.value.0, a.value.1);
      BorrowDecides(recipientOut, amountOut, d.value.0, d.value.1);
      SwapOutput(input, a.value.0, b.value.0, c.value.0, d.value.0, fin.value);
    }
    r := Ok(a.value.0 + b.value.0 + c.value.0 + d.value.0 + fin.value);
  }

  lemma CarryFits(a: Bytes, b: Bytes, sum: Bytes, carry: byte)
    requires |a| == |b| == |sum| == 16 && carry <= 1
    requires ValueLE(a) + ValueLE(b) == ValueLE(sum) + carry * Pow256(|a|)
    ensures carry == 0 <==> ValueLE(a) + ValueLE(b) < TWO128
    ensures carry == 0 ==> ValueLE(sum) == ValueLE(a) + ValueLE(b)
  {
    PowValues();
    CarryDecides(a, b, sum, carry);
  }

  lemma SwapOutput(i: Bytes, a: Bytes, b: Bytes, c: Bytes, d: Bytes, e: Bytes)
    requires |i| == 104 && SwapFires(i) && |a| == |b| == |c| == |d| == 16 && |e| == 8
    requires ValueLE(a) == ValueLE(i[0..16]) - ValueLE(i[64..80]) && ValueLE(b) == ValueLE(i[16..32]) + ValueLE(i[80..96])
    requires ValueLE(c) == ValueLE(i[32..48]) + ValueLE(i[64..80]) && ValueLE(d) == ValueLE(i[48..64]) - ValueLE(i[80..96])
    requires ValueLE(e) == (ValueLE(i[96..104]) + 1) % TWO64
    ensures SwapResult(i, a + b + c + d + e)
  {
    SwapSlices(a, b, c, d, e);
  }

  lemma SwapSlices(a: Bytes, b: Bytes, c: Bytes, d: Bytes, e: Bytes)
    requires |a| == |b| == |c| == |d| == 16 && |e| == 8
    ensures var o := a + b + c + d + e;
            o[0..16] == a && o[16..32] == b && o[32..48] == c && o[48..64] == d && o[64..72] == e
  {
  }

  // ----- the transfer gated by a network -----

  const MIN_NET_CREDIT: int := 500
  const MAX_RISK_FLAGS: int := 10

  function CreditLayers(): seq<Layer> {
    [Network.Layer(4, 2, [[0, 2], []], [[1], [3]], [0, 10], false),
     Network.Layer(2, 4, [[0], [0], [1], [1]], [[], [], [], []], [-499, -500, 1, 0], true),
     Network.Layer(4, 2, [[0], [2]], [[1], [3]], [0, 0], false),
     Network.Layer(2, 1, [[0, 1]], [[]], [-1], true)]
  }

  predicate Approves(income: int, debt: int, collateral: int, flags: int) {
    income + collateral - debt >= MIN_NET_CREDIT && flags <= MAX_RISK_FLAGS
  }

  function Step(on: bool): int { if on then 1 else 0 }

  /** The decision network computes the credit rule on all features. */
  lemma CreditMeaning(income: int, debt: int, collateral: int, flags: int)
    requires 0 <= income < 0x1_0000 && 0 <= debt < 0x1_0000 && 0 <= collateral < 0x1_0000 && 0 <= flags < 0x1_0000
    ensures Network.TernaryNetwork(CreditLayers()).Shaped()
    ensures Network.StackFits(CreditLayers(), [income, debt, collateral, flags])
    ensures Network.StackOut(CreditLayers(), [income, debt, collateral, flags])
         == [Step(Approves(income, debt, collateral, flags))]
  {
    hide Network.LayerOut, Network.LayerFits, Network.StackOut, Network.StackFits;
    var x := [income, debt, collateral, flags];
    var n0, n1 := income - debt + collateral, MAX_RISK_FLAGS - flags;
    var y2 := [Network.Relu(true, n0 - 499), Network.Relu(true, n0 - 500), Network.Relu(true, n1 + 1), Network.Relu(true, n1)];
    var y3 := [Step(n0 >= 500), Step(n1 >= 0)];
    CreditLayer1(income, debt, collateral, flags);
    CreditLayer2(n0, n1);
    CreditLayer3(n0, n1);
    CreditLayer4(n0 >= 500, n1 >= 0);
    FourLayers(CreditLayers()[0], CreditLayers()[1], CreditLayers()[2], CreditLayers()[3], x, [n0, n1], y2, y3);
    assert CreditLayers() == [CreditLayers()[0], CreditLayers()[1], CreditLayers()[2], CreditLayers()[3]];
  }

  lemma CreditLayer1(a: int, b: int, c: int, d: int)
    requires 0 <= a < 0x1_0000 && 0 <= b < 0x1_0000 && 0 <= c < 0x1_0000 && 0 <= d < 0x1_0000
    ensures var l, x := CreditLayers()[0], [a, b, c, d];
            l.Shaped() && Network.LayerFits(l, x) && Network.LayerOut(l, x) == [a - b + c, 10 - d]
  {
    var l, x := CreditLayers()[0], [a, b, c, d];
    SumAtShort(x, 0, 2);
    SumAtShort(x, 1, 1);
    SumAtShort(x, 3, 3);
    SmallLayerFits(l, x, 0x1_0000);
  }

  lemma CreditLayer2(n0: int, n1: int)
    requires -0x2_0000 <= n0 < 0x2_0000 && -0x2_0000 <= n1 < 0x2_0000
    ensures var l, x := CreditLayers()[1], [n0, n1];
            && l.Shaped() && Network.LayerFits(l, x)
            && Network.LayerOut(l, x) == [Network.Relu(true, n0 - 499), Network.Relu(true, n0 - 500),
                                          Network.Relu(true, n1 + 1), Network.Relu(true, n1)]
  {
    var l, x := CreditLayers()[1], [n0, n1];
    SumAtShort(x, 0, 0);
    SumAtShort(x, 1, 1);
    SmallLayerFits(l, x, 0x2_0000);
  }

  lemma CreditLayer3(n0: int, n1: int)
    requires -0x2_0000 <= n0 < 0x2_0000 && -0x2_0000 <= n1 < 0x2_0000
    ensures var l := CreditLayers()[2];
            var x := [Network.Relu(true, n0 - 499), Network.Relu(true, n0 - 500), Network.Relu(true, n1 + 1), Network.Relu(true, n1)];
            l.Shaped() && Network.LayerFits(l, x) && Network.LayerOut(l, x) == [Step(n0 >= 500), Step(n1 >= 0)]
  {
    var l := CreditLayers()[2];
    var x := [Network.Relu(true, n0 - 499), Network.Relu(true, n0 - 500), Network.Relu(true, n1 + 1), Network.Relu(true, n1)];
    SumAtShort(x, 0, 1);
    SumAtShort(x, 1, 1);
    SumAtShort(x, 2, 3);
    SumAtShort(x, 3, 3);
    SmallLayerFits(l, x, 0x2_0001);
  }

  lemma CreditLayer4(p: bool, q: bool)
    ensures var l, x := CreditLayers()[3], [Step(p), Step(q)];
            l.Shaped() && Network.LayerFits(l, x) && Network.LayerOut(l, x) == [Step(p && q)]
  {
    var l, x := CreditLayers()[3], [Step(p), Step(q)];
    SumAtShort(x, 0, 1);
    SmallLayerFits(l, x, 1);
  }

  function Feature(input: Bytes, at: nat): nat
    requires at + 2 <= |input|
  {
    var lo: int, hi: int := input[at], input[at + 1];
    lo + 256 * hi
  }

  method RiskGatedTransfer(model: TernaryNetwork, nets: Nets, input: Bytes) returns (r: Result<Bytes, ContractError>)
    requires nets.Shaped() && model.Shaped()
    ensures |input| != 64 ==> r == Err(InputShape(|input|, 64))
    ensures |input| == 64 && nets.Built() && model.layers == CreditLayers() ==>
              r.Ok? && Guarded(input, Approves(Feature(input, 56), Feature(input, 58), Feature(input, 60), Feature(input, 62)), r.value)
  {
    if |input| != 64 {
      return Err(InputShape(|input|, 64));
    }
    var income, debt, collateral, flags := Feature(input, 56), Feature(input, 58), Feature(input, 60), Feature(input, 62);
    if model.layers == CreditLayers() {
      CreditMeaning(income, debt, collateral, flags);
    }
    var decision := Network.RunNetwork(model, [income, debt, collateral, flags]);
    if decision.Err? { return Err(Vm(decision.error)); }
    if (if |decision.value| > 0 then decision.value[0] else 0) != 1 {
      return Ok(Zeros(40));
    }
    r := WrappedTransfer(nets, input[0..16], input[16..32], input[32..48], input[48..56]);
  }
}
