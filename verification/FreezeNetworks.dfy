/**
 The two networks that freeze an account (ternary_vm/src/primitives/freeze_setup.rs,
 freeze_apply.rs): one picks the flag and byte 47 out of a 65-byte witness, the other
 puts the flag on top of the low seven bits.
 */
module FreezeNetworks {
  import opened Bytes
  import opened Network
  import opened ByteNetworks
  import opened AccountRecord

  // ----- freeze_setup -----

  const SETUP_DIM: nat := 16386

  /** The thermometers of some bytes, one after the other. */
  function Columns(b: Bytes): (x: seq<i64>)
    ensures |x| == 256 * |b|
  {
    if b == [] then [] else Columns(b[..|b| - 1]) + Thermo(b[|b| - 1], 255)
  }

  function SetupInput(w: Bytes): (x: seq<i64>)
    requires |w| == 65
    ensures |x| == SETUP_DIM
  {
    Thermo(w[0], 1) + Columns(w[1..])
  }

  lemma {:induction false} ColumnAt(b: Bytes, i: nat)
    requires i < |b|
    ensures Columns(b)[256 * i..256 * i + 256] == Thermo(b[i], 255)
  {
    var init := b[..|b| - 1];
    if i < |b| - 1 {
      ColumnAt(init, i);
      assert Columns(b)[256 * i..256 * i + 256] == Columns(init)[256 * i..256 * i + 256];
    }
  }

  lemma {:induction false} ColumnsBounded(b: Bytes)
    ensures Bounded(Columns(b), 1)
  {
    if b != [] {
      ColumnsBounded(b[..|b| - 1]);
    }
  }

  function SetupLayer(): Layer {
    Layer(SETUP_DIM, 2, [[1], Range(12034, 256)], [[], []], [0, -1], false)
  }

  method BuildSetup() returns (net: TernaryNetwork)
    ensures net.layers == [SetupLayer()] && net.Shaped()
  {
    var lo := 2 + 47 * 256;
    net := TernaryNetwork([Layer(SETUP_DIM, 2, [[1], Range(lo, 256)], [[], []], [0, -1], false)]);
  }

  lemma SetupMeaning(w: Bytes)
    requires |w| == 65 && w[0] <= 1
    ensures TernaryNetwork([SetupLayer()]).Shaped() && StackFits([SetupLayer()], SetupInput(w))
    ensures StackOut([SetupLayer()], SetupInput(w)) == [w[0] as int, w[48] as int]
  {
    var l, x := SetupLayer(), SetupInput(w);
    ColumnsBounded(w[1..]);
    assert Bounded(x, 1);
    SmallLayerFits(l, x, 1);
    SumAtShort(x, 1, 0);
    SumAtRange(x, 12034, 256);
    ColumnAt(w[1..], 47);
    assert x[12034..12290] == Columns(w[1..])[12032..12288];
    TotalThermo(w[48], 255);
    assert RowSum(l, x, 0) == w[0] && RowSum(l, x, 1) == w[48];
    assert LayerOut(l, x) == [w[0] as int, w[48] as int];
    StackCons(l, [], x);
    assert [l] + [] == [l];
  }

  method SetupEncode(w: Bytes) returns (r: Result<seq<i64>, Error>)
    requires |w| == 65
    ensures r == if w[0] > 1 then Err(InputRange(w[0], 1)) else Ok(SetupInput(w))
  {
    if w[0] > 1 {
      return Err(InputRange(w[0], 1));
    }
    var v := Encode(w[0], 1);
    assert w[1..][..0] == [];
    for i := 0 to 64
      invariant v == Thermo(w[0], 1) + Columns(w[1..][..i])
    {
      var t := Encode(w[1 + i], 255);
      assert w[1..][..i + 1][..i] == w[1..][..i];
      v := v + t;
    }
    assert w[1..][..64] == w[1..];
    r := Ok(v);
  }

  method SetupDecode(out: seq<i64>) returns (r: Result<(byte, byte), Error>)
    ensures r == if |out| == 2 && 0 <= out[0] <= 1 && 0 <= out[1] <= 255 then Ok((out[0], out[1])) else Err(OutputDecode)
  {
    if |out| != 2 {
      return Err(OutputDecode);
    }
    if !(0 <= out[0] <= 1) {
      return Err(OutputDecode);
    }
    if !(0 <= out[1] <= 255) {
      return Err(OutputDecode);
    }
    r := Ok((out[0], out[1]));
  }

  method RunSetup(net: TernaryNetwork, w: Bytes) returns (r: Result<(byte, byte), Error>)
    requires net.Shaped() && |w| == 65
    ensures w[0] > 1 ==> r == Err(InputRange(w[0], 1))
    ensures w[0] <= 1 && net.layers == [SetupLayer()] ==> r == Ok((w[0], w[48]))
  {
    var input := SetupEncode(w);
    if input.Err? {
      return Err(input.error);
    }
    var output := RunNetwork(net, input.value);
    if net.layers == [SetupLayer()] {
      SetupMeaning(w);
    }
    if output.Err? {
      return Err(output.error);
    }
    r := SetupDecode(output.value);
  }

  // ----- freeze_apply -----

  function ApplyInput(flag: byte, b: byte): (x: seq<i64>)
    ensures |x| == 258
  {
    Thermo(flag, 1) + Thermo(b, 255)
  }

  /** Rows: 128 that survive only below 128, the upper half of the thermometer, the flag. */
  function Halves(): Layer {
    Layer(258, 257,
          seq(257, k requires 0 <= k => if k == 256 then [1] else [2 + k]),
          seq(257, k requires 0 <= k => if k < 128 then [130 + k, 130] else []),
          seq(257, _ => 0), true)
  }

  function Low7(): Layer {
    Layer(257, 2, [Range(0, 128) + Range(128, 128), [256]], [[], []], [-1, 0], false)
  }

  method BuildHalves() returns (l: Layer)
    ensures l == Halves() && l.Shaped()
  {
    var pos: seq<seq<nat>>, neg: seq<seq<nat>> := [], [];
    var byteLo := 2;
    var h := byteLo + 128;
    for k := 0 to 128
      invariant |pos| == |neg| == k
      invariant forall j :: 0 <= j < k ==> pos[j] == [2 + j] && neg[j] == [130 + j, 130]
    {
      pos := pos + [[byteLo + k]];
      neg := neg + [[byteLo + k + 128, h]];
    }
    for k := 128 to 256
      invariant |pos| == |neg| == k
      invariant forall j :: 0 <= j < k ==> pos[j] == [2 + j]
      invariant forall j :: 0 <= j < k ==> neg[j] == if j < 128 then [130 + j, 130] else []
    {
      pos := pos + [[byteLo + k]];
      neg := neg + [[]];
    }
    pos := pos + [[1]];
    neg := neg + [[]];
    assert pos == Halves().pos && neg == Halves().neg;
    l := Layer(258, 257, pos, neg, seq(257, _ => 0), true);
  }

  method BuildApply() returns (net: TernaryNetwork)
    ensures net.layers == [Halves(), Low7()] && net.Shaped()
  {
    var l1 := BuildHalves();
    net := TernaryNetwork([l1, Low7()]);
  }

  /** The first layer leaves the thermometer of the low seven bits in one half, and zeros in the other. */
  function HalvesOut(flag: byte, b: byte): (y: seq<int>)
    ensures |y| == 257
  {
    seq(257, k => if k == 256 then (if flag >= 1 then 1 else 0)
                  else if k < 128 then (if b < 128 && k <= b then 1 else 0)
                  else if k <= b then 1 else 0)
  }

  lemma HalvesMeaning(flag: byte, b: byte)
    requires flag <= 1
    ensures Halves().Shaped() && LayerFits(Halves(), ApplyInput(flag, b))
    ensures LayerOut(Halves(), ApplyInput(flag, b)) == HalvesOut(flag, b)
  {
    var l, x := Halves(), ApplyInput(flag, b);
    SmallLayerFits(l, x, 1);
    forall k | 0 <= k < 257
      ensures Relu(true, RowSum(l, x, k)) == HalvesOut(flag, b)[k]
    {
      HalvesRow(flag, b, k);
    }
  }

  lemma HalvesRow(flag: byte, b: byte, k: nat)
    requires flag <= 1 && k < 257
    ensures Halves().Shaped() && Relu(true, RowSum(Halves(), ApplyInput(flag, b), k)) == HalvesOut(flag, b)[k]
  {
    var x := ApplyInput(flag, b);
    if k == 256 {
      SumAtShort(x, 1, 0);
    } else {
      assert x[2 + k] == if k <= b then 1 else 0;
      SumAtShort(x, 2 + k, 0);
      if k < 128 {
        SumAtShort(x, 130 + k, 130);
      }
    }
  }

  /**
   The first layer lists column 130 twice in row 0, so that its weight there is -2 and the row
   is not the documented {-1, 0, +1} product.
   */
  lemma HalvesRepeats()
    ensures Halves().Shaped() && Halves().Disjoint(0) && !NoRepeat(Halves(), 0)
    ensures Weight(Halves(), 0, 130) == -2 && !SignProduct(Halves(), 0)
  {
    var l := Halves();
    assert l.pos[0] == [2] && l.neg[0] == [130, 130];
    assert l.neg[0][0] == l.neg[0][1];
    SignProductExactly(l, 0);
  }

  lemma Low7Meaning(flag: byte, b: byte)
    requires flag <= 1
    ensures Low7().Shaped() && LayerFits(Low7(), HalvesOut(flag, b))
    ensures LayerOut(Low7(), HalvesOut(flag, b)) == [b % 128, flag as int]
  {
    hide SumAt;
    var l, y := Low7(), HalvesOut(flag, b);
    SmallLayerFits(l, y, 1);
    BothHalves(flag, b);
    SumAtShort(y, 256, 0);
    assert RowSum(l, y, 0) == b % 128 && RowSum(l, y, 1) == flag;
  }

  /** The two halves together hold one more than the low seven bits. */
  lemma BothHalves(flag: byte, b: byte)
    ensures Within(Range(0, 128) + Range(128, 128), 257)
    ensures SumAt(HalvesOut(flag, b), Range(0, 128) + Range(128, 128)) == b % 128 + 1
  {
    hide HalvesOut, SumAt, Total;
    var y := HalvesOut(flag, b);
    SumAtConcat(y, Range(0, 128), Range(128, 128));
    SumAtRange(y, 0, 128);
    SumAtRange(y, 128, 128);
    LowerHalf(flag, b);
    UpperHalf(flag, b);
  }

  lemma LowerHalf(flag: byte, b: byte)
    ensures Total(HalvesOut(flag, b)[0..128]) == if b < 128 then b + 1 else 0
  {
    var y := HalvesOut(flag, b)[0..128];
    if b < 128 {
      assert y == Thermo(b, 127);
      TotalThermo(b, 127);
    } else {
      TotalZeros(y);
    }
  }

  lemma UpperHalf(flag: byte, b: byte)
    ensures Total(HalvesOut(flag, b)[128..256]) == if b < 128 then 0 else b - 127
  {
    var y := HalvesOut(flag, b)[128..256];
    if b < 128 {
      TotalZeros(y);
    } else {
      assert y == Thermo(b - 128, 127);
      TotalThermo(b - 128, 127);
    }
  }

  lemma {:induction false} TotalZeros(x: seq<int>)
    requires forall i :: 0 <= i < |x| ==> x[i] == 0
    ensures Total(x) == 0
  {
    if x != [] {
      TotalZeros(x[..|x| - 1]);
    }
  }

  lemma ApplyMeaning(flag: byte, b: byte)
    requires flag <= 1
    ensures TernaryNetwork([Halves(), Low7()]).Shaped() && StackFits([Halves(), Low7()], ApplyInput(flag, b))
    ensures StackOut([Halves(), Low7()], ApplyInput(flag, b)) == [b % 128, flag as int]
  {
    var x := ApplyInput(flag, b);
    HalvesMeaning(flag, b);
    Low7Meaning(flag, b);
    StackCons(Low7(), [], HalvesOut(flag, b));
    assert [Low7()] + [] == [Low7()] && [Halves()] + [Low7()] == [Halves(), Low7()];
    StackCons(Halves(), [Low7()], x);
  }

  method ApplyEncode(flag: byte, b: byte) returns (r: Result<seq<i64>, Error>)
    ensures r == if flag > 1 then Err(InputRange(flag, 1)) else Ok(ApplyInput(flag, b))
  {
    if flag > 1 {
      return Err(InputRange(flag, 1));
    }
    var x := Encode(flag, 1);
    var y := Encode(b, 255);
    r := Ok(x + y);
  }

  method ApplyDecode(out: seq<i64>) returns (r: Result<byte, Error>)
    ensures r == if |out| == 2 && 0 <= out[0] <= 127 && 0 <= out[1] <= 1 then Ok(out[0] + 128 * out[1]) else Err(OutputDecode)
  {
    if |out| != 2 {
      return Err(OutputDecode);
    }
    var low, flag := out[0], out[1];
    if !(0 <= low <= 127) {
      return Err(OutputDecode);
    }
    if !(0 <= flag <= 1) {
      return Err(OutputDecode);
    }
    r := Ok(low + 128 * flag);
  }

  method RunApply(net: TernaryNetwork, flag: byte, b: byte) returns (r: Result<byte, Error>)
    requires net.Shaped()
    ensures flag > 1 ==> r == Err(InputRange(flag, 1))
    ensures flag <= 1 && net.layers == [Halves(), Low7()] ==> r == Ok(b % 128 + 128 * flag)
  {
    var input := ApplyEncode(flag, b);
    if input.Err? {
      return Err(input.error);
    }
    var output := RunNetwork(net, input.value);
    if net.layers == [Halves(), Low7()] {
      ApplyMeaning(flag, b);
    }
    if output.Err? {
      return Err(output.error);
    }
    r := ApplyDecode(output.value);
  }

  // ----- both -----

  /** One network after the other on a record: the byte that setting the flag writes, for every record and flag. */
  method FreezeByte(setup: TernaryNetwork, apply: TernaryNetwork, flag: byte, a: Record) returns (r: Result<byte, Error>)
    requires setup.Shaped() && apply.Shaped()
    ensures flag > 1 ==> r == Err(InputRange(flag, 1))
    ensures flag <= 1 && setup.layers == [SetupLayer()] && apply.layers == [Halves(), Low7()] ==>
              r == Ok(WithFrozen(a, flag == 1)[47]) && a[47 := r.value] == WithFrozen(a, flag == 1)
  {
    var picked := RunSetup(setup, [flag] + a);
    if picked.Err? {
      return Err(picked.error);
    }
    r := RunApply(apply, picked.value.0, picked.value.1);
  }

  /** The byte the networks compute sets the flag and leaves balance, key, nonce and activity alone. */
  lemma FreezeByteMeans(a: Record, flag: byte)
    requires flag <= 1
    ensures StackFits([Halves(), Low7()], ApplyInput(flag, a[47]))
    ensures var out := StackOut([Halves(), Low7()], ApplyInput(flag, a[47]));
            && |out| == 2 && 0 <= out[0] + 128 * out[1] < 256
            && var b := a[47 := out[0] + 128 * out[1]];
               && Balance(b) == Balance(a) && Frozen(b) == (flag == 1)
               && Pubkey(b) == Pubkey(a) && Nonce(b) == Nonce(a) && LastActive(b) == LastActive(a)
  {
    ApplyMeaning(flag, a[47]);
    SetFrozenKeepsBalance(a, flag == 1);
    assert a[47 := a[47] % 128 + 128 * flag] == WithFrozen(a, flag == 1);
  }
}
