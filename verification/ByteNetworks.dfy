/**
 The byte adder and the byte subtractor as ternary networks
 (ternary_vm/src/thermo.rs, primitives/byte_add_with_carry.rs, primitives/byte_sub_with_borrow.rs).
 */
module ByteNetworks {
  import opened Bytes
  import opened Network

  const THERMO_LEN: nat := 513
  const INPUT_DIM: nat := 514
  const OUTPUT_DIM: nat := 257

  /** Sum byte and carry. */
  function SumByte(a: byte, b: byte, c: byte): (byte, byte)
    requires c <= 1
  {
    ((a + b + c) % 256, (a + b + c) / 256)
  }

  /** Difference byte and borrow. */
  function DiffByte(m: byte, s: byte, b: byte): (byte, byte)
    requires b <= 1
  {
    ((m - s - b) % 256, if m - s - b < 0 then 1 else 0)
  }

  // ----- thermometers -----

  function Clamp(v: int, max: nat): nat {
    if v < 0 then 0 else if v > max then max else v
  }

  /** `v + 1` ones followed by zeros, `max + 1` entries in all. */
  function Thermo(v: int, max: nat): (t: seq<i64>)
    ensures |t| == max + 1
  {
    seq(max + 1, i => if i <= Clamp(v, max) then 1 else 0)
  }

  method Encode(v: int, max: nat) returns (t: seq<i64>)
    ensures t == Thermo(v, max)
  {
    t := seq(max + 1, _ => 0);
    var cap := (if (if v < max then v else max) > 0 then (if v < max then v else max) else 0) + 1;
    if cap > max + 1 { cap := max + 1; }
    for i := 0 to cap
      invariant |t| == max + 1
      invariant forall j :: 0 <= j < i ==> t[j] == 1
      invariant forall j :: i <= j <= max ==> t[j] == 0
    {
      t := t[i := 1];
    }
  }

  /** The number of leading nonzero entries, less one. */
  method Decode(t: seq<i64>) returns (v: int)
    ensures -1 <= v < |t| && (forall j :: 0 <= j <= v ==> t[j] != 0) && (v + 1 < |t| ==> t[v + 1] == 0)
    ensures forall x: int, max: nat | t == Thermo(x, max) :: v == Clamp(x, max)
  {
    var count := 0;
    while count < |t| && t[count] != 0
      invariant 0 <= count <= |t|
      invariant forall j :: 0 <= j < count ==> t[j] != 0
    {
      count := count + 1;
    }
    v := count - 1;
    forall x: int, max: nat | t == Thermo(x, max)
      ensures v == Clamp(x, max)
    {
      var c := Clamp(x, max);
      assert t[c] == 1 && (c < max ==> t[c + 1] == 0);
    }
  }

  function Total(x: seq<int>): int {
    if x == [] then 0 else Total(x[..|x| - 1]) + x[|x| - 1]
  }

  lemma {:induction false} TotalThermo(v: int, max: nat)
    ensures Total(Thermo(v, max)) == Clamp(v, max) + 1
  {
    var t := Thermo(v, max);
    if max == 0 {
      assert t[..0] == [];
    } else {
      TotalThermo(v, max - 1);
      assert t[..max] == Thermo(v, max - 1);
    }
  }

  lemma {:induction false} TotalConcat(x: seq<int>, y: seq<int>)
    ensures Total(x + y) == Total(x) + Total(y)
  {
    if y == [] {
      assert x + y == x;
    } else {
      TotalConcat(x, y[..|y| - 1]);
      assert (x + y)[..|x + y| - 1] == x + y[..|y| - 1];
    }
  }

  // ----- sums along short and contiguous lists -----

  function Range(lo: nat, n: nat): (r: seq<nat>)
    ensures |r| == n
  {
    seq(n, i requires 0 <= i => lo + i)
  }

  lemma {:induction false} SumAtRange(x: seq<int>, lo: nat, n: nat)
    requires lo + n <= |x|
    ensures SumAt(x, Range(lo, n)) == Total(x[lo..lo + n])
  {
    if n > 0 {
      SumAtRange(x, lo, n - 1);
      assert Range(lo, n)[..n - 1] == Range(lo, n - 1);
      assert x[lo..lo + n][..n - 1] == x[lo..lo + n - 1];
    }
  }

  lemma SumAtShort(x: seq<int>, a: nat, b: nat)
    requires a < |x| && b < |x|
    ensures SumAt(x, []) == 0 && SumAt(x, [a]) == x[a] && SumAt(x, [a, b]) == x[a] + x[b]
  {
    assert [a][..0] == [] && [a, b][..1] == [a];
  }

  lemma {:induction false} SumAtConcat(x: seq<int>, p: seq<nat>, q: seq<nat>)
    requires Within(p + q, |x|)
    ensures Within(p, |x|) && Within(q, |x|)
    ensures SumAt(x, p + q) == SumAt(x, p) + SumAt(x, q)
  {
    assert forall k :: 0 <= k < |p| ==> (p + q)[k] == p[k];
    assert forall k :: 0 <= k < |q| ==> (p + q)[|p| + k] == q[k];
    if q == [] {
      assert p + q == p;
    } else {
      assert (p + q)[..|p + q| - 1] == p + q[..|q| - 1];
      SumAtConcat(x, p, q[..|q| - 1]);
    }
  }

  // ----- nothing here comes near 64 bits -----

  ghost predicate Bounded(x: seq<int>, b: nat) {
    forall j :: 0 <= j < |x| ==> Abs(x[j]) <= b
  }

  lemma SmallLayerFits(l: Layer, x: seq<int>, b: nat)
    requires l.Shaped() && |x| == l.inputDim && Bounded(x, b) && b <= 0x4_0000
    requires forall i :: 0 <= i < l.outputDim ==> |l.pos[i]| <= 600 && |l.neg[i]| <= 600 && Abs(l.bias[i]) <= 1000
    ensures LayerFits(l, x)
  {
    forall i | 0 <= i < l.outputDim
      ensures RowFits(l, x, i)
    {
      SumAbsBound(x, l.pos[i], b);
      SumAbsBound(x, l.neg[i], b);
      MulBound(|l.pos[i]|, b);
      MulBound(|l.neg[i]|, b);
      SmallRowFits(l, x, i);
    }
  }

  lemma MulBound(n: nat, b: nat)
    requires n <= 600 && b <= 0x4_0000
    ensures n * b <= 600 * 0x4_0000
  {
    assert (600 - n) * b >= 0;
    assert n * b == 600 * b - (600 - n) * b;
  }

  /** A stack of four layers from what each does to the output of the one before. */
  lemma FourLayers(l1: Layer, l2: Layer, l3: Layer, l4: Layer, x: seq<int>, y1: seq<int>, y2: seq<int>, y3: seq<int>)
    requires l1.Shaped() && l2.Shaped() && l3.Shaped() && l4.Shaped()
    requires |x| == l1.inputDim && LayerFits(l1, x) && y1 == LayerOut(l1, x)
    requires |y1| == l2.inputDim && LayerFits(l2, y1) && y2 == LayerOut(l2, y1)
    requires |y2| == l3.inputDim && LayerFits(l3, y2) && y3 == LayerOut(l3, y2)
    requires |y3| == l4.inputDim && LayerFits(l4, y3)
    ensures StackFits([l1, l2, l3, l4], x) && StackOut([l1, l2, l3, l4], x) == LayerOut(l4, y3)
  {
    StackCons(l4, [], y3);
    StackCons(l3, [l4], y2);
    StackCons(l2, [l3, l4], y1);
    StackCons(l1, [l2, l3, l4], x);
    assert [l1] + [l2, l3, l4] == [l1, l2, l3, l4] && [l2] + [l3, l4] == [l2, l3, l4] && [l3] + [l4] == [l3, l4];
    assert [l4] + [] == [l4];
  }

  lemma StackCons(l: Layer, rest: seq<Layer>, x: seq<int>)
    requires l.Shaped() && forall k :: 0 <= k < |rest| ==> rest[k].Shaped()
    requires |x| == l.inputDim && LayerFits(l, x) && StackFits(rest, LayerOut(l, x))
    ensures StackFits([l] + rest, x) && StackOut([l] + rest, x) == StackOut(rest, LayerOut(l, x))
  {
    assert ([l] + rest)[1..] == rest;
  }

  // ----- the layers both networks share -----

  /** Rows 2i and 2i+1 are ReLU(T - i + 1) and ReLU(T - i). */
  function ParallelRelu(): Layer {
    Layer(1, 2 * THERMO_LEN, seq(2 * THERMO_LEN, _ => [0]), seq(2 * THERMO_LEN, _ => []),
          seq(2 * THERMO_LEN, j requires 0 <= j < 2 * THERMO_LEN => if j % 2 == 0 then 1 - j / 2 else -(j / 2)), true)
  }

  /** Row i is the difference of inputs 2i and 2i+1. */
  function ThermoDecode(): Layer {
    Layer(2 * THERMO_LEN, THERMO_LEN, seq(THERMO_LEN, i requires 0 <= i => [2 * i]),
          seq(THERMO_LEN, i requires 0 <= i => [2 * i + 1]), seq(THERMO_LEN, _ => 0), false)
  }

  method BuildParallelRelu() returns (l: Layer)
    ensures l == ParallelRelu()
  {
    var pos: seq<seq<nat>>, neg: seq<seq<nat>>, bias: seq<i64> := [], [], [];
    for i := 0 to THERMO_LEN
      invariant pos == seq(2 * i, _ => [0]) && neg == seq(2 * i, _ => [])
      invariant |bias| == 2 * i
      invariant forall j :: 0 <= j < 2 * i ==> bias[j] == if j % 2 == 0 then 1 - j / 2 else -(j / 2)
    {
      pos := pos + [[0]];
      neg := neg + [[]];
      bias := bias + [1 - i];
      pos := pos + [[0]];
      neg := neg + [[]];
      bias := bias + [-i];
    }
    l := Layer(1, 2 * THERMO_LEN, pos, neg, bias, true);
  }

  method BuildThermoDecode() returns (l: Layer)
    ensures l == ThermoDecode()
  {
    var pos: seq<seq<nat>>, neg: seq<seq<nat>> := [], [];
    for i := 0 to THERMO_LEN
      invariant |pos| == |neg| == i
      invariant forall j :: 0 <= j < i ==> pos[j] == [2 * j] && neg[j] == [2 * j + 1]
    {
      pos := pos + [[2 * i]];
      neg := neg + [[2 * i + 1]];
    }
    l := Layer(2 * THERMO_LEN, THERMO_LEN, pos, neg, seq(THERMO_LEN, _ => 0), false);
  }

  function Pairs(t: int): (y: seq<int>)
    ensures |y| == 2 * THERMO_LEN
  {
    seq(2 * THERMO_LEN, j requires 0 <= j < 2 * THERMO_LEN => Relu(true, if j % 2 == 0 then t - j / 2 + 1 else t - j / 2))
  }

  lemma ParallelReluOut(t: int)
    requires 0 <= t <= 511
    ensures ParallelRelu().Shaped() && LayerFits(ParallelRelu(), [t]) && LayerOut(ParallelRelu(), [t]) == Pairs(t)
  {
    var l := ParallelRelu();
    SumAtShort([t], 0, 0);
    SmallLayerFits(l, [t], 511);
  }

  /** The two shared layers turn an integer into its thermometer. */
  lemma ThermoDecodeOut(t: int)
    requires 0 <= t <= 511
    ensures ThermoDecode().Shaped() && LayerFits(ThermoDecode(), Pairs(t))
    ensures LayerOut(ThermoDecode(), Pairs(t)) == Thermo(t, 512)
  {
    var l, x := ThermoDecode(), Pairs(t);
    assert Bounded(x, 600);
    SmallLayerFits(l, x, 600);
    forall i: nat | i < THERMO_LEN
      ensures RowSum(l, x, i) == Thermo(t, 512)[i]
    {
      ThermoDecodeRow(t, i);
    }
  }

  lemma ThermoDecodeRow(t: int, i: nat)
    requires 0 <= t <= 511 && i < THERMO_LEN
    ensures ThermoDecode().Shaped() && RowSum(ThermoDecode(), Pairs(t), i) == Thermo(t, 512)[i]
  {
    var l, x := ThermoDecode(), Pairs(t);
    assert l.pos[i] == [2 * i] && l.neg[i] == [2 * i + 1];
    SumAtShort(x, 2 * i, 2 * i + 1);
    SumAtShort(x, 2 * i + 1, 0);
    assert x[2 * i] == Relu(true, t - i + 1) && x[2 * i + 1] == Relu(true, t - i);
  }

  /** The shared layers between a layer that computes `t` and one that reads its thermometer. */
  lemma StepStack(l1: Layer, l4: Layer, x: seq<int>, t: int)
    requires 0 <= t <= 511 && l1.Shaped() && l4.Shaped()
    requires |x| == l1.inputDim && LayerFits(l1, x) && LayerOut(l1, x) == [t]
    requires l4.inputDim == THERMO_LEN && LayerFits(l4, Thermo(t, 512))
    ensures TernaryNetwork([l1, ParallelRelu(), ThermoDecode(), l4]).Shaped()
    ensures StackFits([l1, ParallelRelu(), ThermoDecode(), l4], x)
    ensures StackOut([l1, ParallelRelu(), ThermoDecode(), l4], x) == LayerOut(l4, Thermo(t, 512))
  {
    ParallelReluOut(t);
    ThermoDecodeOut(t);
    FourLayers(l1, ParallelRelu(), ThermoDecode(), l4, x, [t], Pairs(t), Thermo(t, 512));
  }

  /** Row k of the projection layers: 1 exactly when T is k or k + 256. */
  lemma OneHotRow(l: Layer, t: int, k: nat)
    requires l.Shaped() && l.inputDim == THERMO_LEN && k < 256 && k < l.outputDim && 0 <= t <= 511
    requires l.pos[k] == [k, k + 256] && l.neg[k] == [k + 1, k + 257] && l.bias[k] == 0
    ensures RowSum(l, Thermo(t, 512), k) == if t % 256 == k then 1 else 0
  {
    var x := Thermo(t, 512);
    SumAtShort(x, k, k + 256);
    SumAtShort(x, k + 1, k + 257);
  }

  /** One-hot low byte, then the bit `top`. */
  function OneHot(t: int, top: int): (y: seq<int>)
    ensures |y| == OUTPUT_DIM
  {
    seq(OUTPUT_DIM, k => if k == 256 then top else if t % 256 == k then 1 else 0)
  }

  method DecodeOutput(out: seq<i64>) returns (r: Result<(byte, byte), Error>)
    ensures r.Ok? <==> |out| == OUTPUT_DIM && 0 <= out[256] <= 1
    ensures r.Err? ==> r.error == OutputDecode
    ensures r.Ok? ==> r.value.1 == out[256]
    ensures r.Ok? ==> forall j :: 0 <= j < 256 ==> out[j] <= out[r.value.0] && (j < r.value.0 ==> out[j] < out[r.value.0])
    ensures forall t: byte, top: byte | top <= 1 && out == OneHot(t, top) :: r == Ok((t, top))
  {
    if |out| != OUTPUT_DIM {
      return Err(OutputDecode);
    }
    var best := Argmax(out[..256]);
    var top := out[256];
    if !(0 <= top <= 1) {
      return Err(OutputDecode);
    }
    r := Ok((best.value, top));
    assert forall j :: 0 <= j < 256 ==> out[..256][j] == out[j];
    forall t: byte, b: byte | b <= 1 && out == OneHot(t, b)
      ensures r == Ok((t, b))
    {
      assert out[..256][t] == 1;
    }
  }

  method EncodeInput(a: byte, b: byte, c: byte) returns (r: Result<seq<i64>, Error>)
    ensures c > 1 ==> r == Err(InputRange(c, 1))
    ensures c <= 1 ==> r == Ok(Input(a, b, c))
  {
    if c > 1 {
      return Err(InputRange(c, 1));
    }
    var x := Encode(a, 255);
    var y := Encode(b, 255);
    var z := Encode(c, 1);
    r := Ok(x + y + z);
  }

  function Input(a: byte, b: byte, c: byte): (x: seq<i64>)
    ensures |x| == INPUT_DIM
  {
    Thermo(a, 255) + Thermo(b, 255) + Thermo(c, 1)
  }

  lemma InputSums(a: byte, b: byte, c: byte)
    requires c <= 1
    ensures var x := Input(a, b, c);
            && SumAt(x, Range(0, 256)) == a + 1
            && SumAt(x, Range(256, 256)) == b + 1
            && SumAt(x, Range(512, 2)) == c + 1
            && Bounded(x, 1)
  {
    var x := Input(a, b, c);
    SumAtRange(x, 0, 256);
    SumAtRange(x, 256, 256);
    SumAtRange(x, 512, 2);
    assert x[0..256] == Thermo(a, 255) && x[256..512] == Thermo(b, 255) && x[512..514] == Thermo(c, 1);
    TotalThermo(a, 255);
    TotalThermo(b, 255);
    TotalThermo(c, 1);
  }

  // ----- byte_add_with_carry -----

  function AddTotal(): Layer {
    Layer(INPUT_DIM, 1, [Range(0, INPUT_DIM)], [[]], [-3], false)
  }

  function AddProjection(): Layer {
    Layer(THERMO_LEN, OUTPUT_DIM,
          seq(OUTPUT_DIM, k requires 0 <= k => if k < 256 then [k, k + 256] else [256]),
          seq(OUTPUT_DIM, k requires 0 <= k => if k < 256 then [k + 1, k + 257] else []),
          seq(OUTPUT_DIM, _ => 0), false)
  }

  function AddLayers(): seq<Layer> {
    [AddTotal(), ParallelRelu(), ThermoDecode(), AddProjection()]
  }

  method BuildAdd() returns (net: TernaryNetwork)
    ensures net.layers == AddLayers() && net.Shaped()
  {
    var pos: seq<seq<nat>>, neg: seq<seq<nat>> := [], [];
    for k := 0 to 256
      invariant |pos| == |neg| == k
      invariant forall j :: 0 <= j < k ==> pos[j] == [j, j + 256] && neg[j] == [j + 1, j + 257]
    {
      pos := pos + [[k, k + 256]];
      neg := neg + [[k + 1, k + 257]];
    }
    pos := pos + [[256]];
    neg := neg + [[]];
    var l2 := BuildParallelRelu();
    var l3 := BuildThermoDecode();
    var l4 := Layer(THERMO_LEN, OUTPUT_DIM, pos, neg, seq(OUTPUT_DIM, _ => 0), false);
    assert l4.pos == AddProjection().pos && l4.neg == AddProjection().neg;
    net := TernaryNetwork([AddTotal(), l2, l3, l4]);
  }

  lemma AddTotalOut(a: byte, b: byte, c: byte)
    requires c <= 1
    ensures AddTotal().Shaped() && LayerFits(AddTotal(), Input(a, b, c))
    ensures LayerOut(AddTotal(), Input(a, b, c)) == [a + b + c]
  {
    var l, x := AddTotal(), Input(a, b, c);
    InputSums(a, b, c);
    SmallLayerFits(l, x, 1);
    SumAtConcat(x, Range(0, 256), Range(256, 256));
    SumAtConcat(x, Range(0, 256) + Range(256, 256), Range(512, 2));
    assert Range(0, INPUT_DIM) == Range(0, 256) + Range(256, 256) + Range(512, 2);
    assert SumAt(x, []) == 0;
  }

  lemma AddProjectionOut(t: int)
    requires 0 <= t <= 511
    ensures AddProjection().Shaped() && LayerFits(AddProjection(), Thermo(t, 512))
    ensures LayerOut(AddProjection(), Thermo(t, 512)) == OneHot(t % 256, t / 256)
  {
    var l, x := AddProjection(), Thermo(t, 512);
    SmallLayerFits(l, x, 1);
    forall k | 0 <= k < OUTPUT_DIM
      ensures RowSum(l, x, k) == OneHot(t % 256, t / 256)[k]
    {
      if k < 256 {
        OneHotRow(l, t, k);
      } else {
        SumAtShort(x, 256, 0);
      }
    }
  }

  /** The four layers add two bytes and a carry. */
  lemma AddMeaning(a: byte, b: byte, c: byte)
    requires c <= 1
    ensures TernaryNetwork(AddLayers()).Shaped() && StackFits(AddLayers(), Input(a, b, c))
    ensures StackOut(AddLayers(), Input(a, b, c)) == OneHot(SumByte(a, b, c).0, SumByte(a, b, c).1)
  {
    var t := a + b + c;
    assert SumByte(a, b, c) == (t % 256, t / 256);
    AddTotalOut(a, b, c);
    AddProjectionOut(t);
    StepStack(AddTotal(), AddProjection(), Input(a, b, c), t);
  }

  method RunAdd(net: TernaryNetwork, a: byte, b: byte, c: byte) returns (r: Result<(byte, byte), Error>)
    requires net.Shaped()
    ensures c > 1 ==> r == Err(InputRange(c, 1))
    ensures r.Ok? ==> r.value.1 <= 1
    ensures c <= 1 && net.layers == AddLayers() ==> r == Ok(SumByte(a, b, c))
  {
    var input := EncodeInput(a, b, c);
    if input.Err? {
      return Err(input.error);
    }
    var output := RunNetwork(net, input.value);
    if net.layers == AddLayers() {
      AddMeaning(a, b, c);
    }
    if output.Err? {
      return Err(output.error);
    }
    r := DecodeOutput(output.value);
  }

  // ----- byte_sub_with_borrow -----

  function SubTotal(): Layer {
    Layer(INPUT_DIM, 1, [Range(0, 256)], [Range(256, 256) + Range(512, 2)], [257], false)
  }

  function SubProjection(): Layer {
    Layer(THERMO_LEN, OUTPUT_DIM,
          seq(OUTPUT_DIM, k requires 0 <= k => if k < 256 then [k, k + 256] else []),
          seq(OUTPUT_DIM, k requires 0 <= k => if k < 256 then [k + 1, k + 257] else [256]),
          seq(OUTPUT_DIM, k => if k == 256 then 1 else 0), false)
  }

  function SubLayers(): seq<Layer> {
    [SubTotal(), ParallelRelu(), ThermoDecode(), SubProjection()]
  }

  method BuildSub() returns (net: TernaryNetwork)
    ensures net.layers == SubLayers() && net.Shaped()
  {
    var pos: seq<seq<nat>>, neg: seq<seq<nat>> := [], [];
    var bias: seq<i64> := seq(OUTPUT_DIM, _ => 0);
    for k := 0 to 256
      invariant |pos| == |neg| == k
      invariant forall j :: 0 <= j < k ==> pos[j] == [j, j + 256] && neg[j] == [j + 1, j + 257]
    {
      pos := pos + [[k, k + 256]];
      neg := neg + [[k + 1, k + 257]];
    }
    pos := pos + [[]];
    neg := neg + [[256]];
    bias := bias[256 := 1];
    var l2 := BuildParallelRelu();
    var l3 := BuildThermoDecode();
    var l4 := Layer(THERMO_LEN, OUTPUT_DIM, pos, neg, bias, false);
    assert l4.pos == SubProjection().pos && l4.neg == SubProjection().neg && l4.bias == SubProjection().bias;
    net := TernaryNetwork([SubTotal(), l2, l3, l4]);
  }

  lemma SubTotalOut(m: byte, s: byte, b: byte)
    requires b <= 1
    ensures SubTotal().Shaped() && LayerFits(SubTotal(), Input(m, s, b))
    ensures LayerOut(SubTotal(), Input(m, s, b)) == [m - s - b + 256]
  {
    var l, x := SubTotal(), Input(m, s, b);
    InputSums(m, s, b);
    SmallLayerFits(l, x, 1);
    SumAtConcat(x, Range(256, 256), Range(512, 2));
  }

  lemma SubProjectionOut(t: int)
    requires 0 <= t <= 511
    ensures SubProjection().Shaped() && LayerFits(SubProjection(), Thermo(t, 512))
    ensures LayerOut(SubProjection(), Thermo(t, 512)) == OneHot(t % 256, 1 - t / 256)
  {
    var l, x := SubProjection(), Thermo(t, 512);
    SmallLayerFits(l, x, 1);
    forall k | 0 <= k < OUTPUT_DIM
      ensures RowSum(l, x, k) == OneHot(t % 256, 1 - t / 256)[k]
    {
      if k < 256 {
        OneHotRow(l, t, k);
      } else {
        SumAtShort(x, 256, 0);
      }
    }
  }

  /** The four layers subtract two bytes and a borrow. */
  lemma SubMeaning(m: byte, s: byte, b: byte)
    requires b <= 1
    ensures TernaryNetwork(SubLayers()).Shaped() && StackFits(SubLayers(), Input(m, s, b))
    ensures StackOut(SubLayers(), Input(m, s, b)) == OneHot(DiffByte(m, s, b).0, DiffByte(m, s, b).1)
  {
    var t := m - s - b + 256;
    assert DiffByte(m, s, b) == (t % 256, 1 - t / 256);
    SubTotalOut(m, s, b);
    SubProjectionOut(t);
    StepStack(SubTotal(), SubProjection(), Input(m, s, b), t);
  }

  method RunSub(net: TernaryNetwork, m: byte, s: byte, b: byte) returns (r: Result<(byte, byte), Error>)
    requires net.Shaped()
    ensures b > 1 ==> r == Err(InputRange(b, 1))
    ensures r.Ok? ==> r.value.1 <= 1
    ensures b <= 1 && net.layers == SubLayers() ==> r == Ok(DiffByte(m, s, b))
  {
    var input := EncodeInput(m, s, b);
    if input.Err? {
      return Err(input.error);
    }
    var output := RunNetwork(net, input.value);
    if net.layers == SubLayers() {
      SubMeaning(m, s, b);
    }
    if output.Err? {
      return Err(output.error);
    }
    r := DecodeOutput(output.value);
  }
}
