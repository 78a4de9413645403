/**
 Sparse ternary layers and their forward kernel (ternary_vm/src/network.rs).

 `LayerOut` is the meaning of a layer on unbounded integers, summed along the index
 lists; `DenseOut` is the product with the matrix those lists stand for, in which a column
 weighs as often as the first list names it less as often as the second does.
 The methods run the checked 64-bit loops.
 */
module Network {
  import opened Bytes

  const I64_MAX: int := 0x7fff_ffff_ffff_ffff
  const I64_MIN: int := -0x8000_0000_0000_0000
  type i64 = x: int | -0x8000_0000_0000_0000 <= x <= 0x7fff_ffff_ffff_ffff

  datatype Error =
    | LayerShape(layer: nat, got: nat, expected: nat)
    | InputShape(got: nat, expected: nat)
    | Overflow(layer: nat, row: nat)
    | EmptyArgmax
    | InputRange(value: int, max: int)
    | OutputDecode

  datatype Layer = Layer(inputDim: nat, outputDim: nat,
                         pos: seq<seq<nat>>, neg: seq<seq<nat>>, bias: seq<i64>, relu: bool)
  {
    /** One row per output, and every index names an input. */
    predicate Shaped() {
      && |pos| == |neg| == |bias| == outputDim
      && (forall i, k :: 0 <= i < outputDim && 0 <= k < |pos[i]| ==> pos[i][k] < inputDim)
      && (forall i, k :: 0 <= i < outputDim && 0 <= k < |neg[i]| ==> neg[i][k] < inputDim)
    }

    /** As documented: no column of row `i` is on both lists. */
    ghost predicate Disjoint(i: nat)
      requires Shaped() && i < outputDim
    {
      forall j: nat :: !(j in pos[i] && j in neg[i])
    }
  }

  predicate InRange(x: int) {
    I64_MIN <= x <= I64_MAX
  }

  function Abs(x: int): nat {
    if x < 0 then -x else x
  }

  function Relu(on: bool, x: int): int {
    if on && x < 0 then 0 else x
  }

  predicate Within(idx: seq<nat>, n: nat) {
    forall k :: 0 <= k < |idx| ==> idx[k] < n
  }

  // ----- meaning of a layer -----

  function SumAt(x: seq<int>, idx: seq<nat>): int
    requires Within(idx, |x|)
  {
    if idx == [] then 0 else SumAt(x, idx[..|idx| - 1]) + x[idx[|idx| - 1]]
  }

  function RowSum(l: Layer, x: seq<int>, i: nat): int
    requires l.Shaped() && |x| == l.inputDim && i < l.outputDim
  {
    l.bias[i] + SumAt(x, l.pos[i]) - SumAt(x, l.neg[i])
  }

  function LayerOut(l: Layer, x: seq<int>): (y: seq<int>)
    requires l.Shaped() && |x| == l.inputDim
    ensures |y| == l.outputDim
  {
    seq(l.outputDim, i requires 0 <= i < l.outputDim => Relu(l.relu, RowSum(l, x, i)))
  }

  // ----- the dense matrix -----

  function Times(idx: seq<nat>, j: nat): int { multiset(idx)[j] }

  /** The weight of column `j`: how often it is listed as positive, less how often as negative. */
  function Weight(l: Layer, i: nat, j: nat): int
    requires l.Shaped() && i < l.outputDim
  {
    Times(l.pos[i], j) - Times(l.neg[i], j)
  }

  /** The documented weight, which is -1, 0 or +1. */
  function SignWeight(l: Layer, i: nat, j: nat): int
    requires l.Shaped() && i < l.outputDim
  {
    if j in l.pos[i] then 1 else if j in l.neg[i] then -1 else 0
  }

  function Coefficient(l: Layer, signs: bool, i: nat, j: nat): int
    requires l.Shaped() && i < l.outputDim
  {
    if signs then SignWeight(l, i, j) else Weight(l, i, j)
  }

  /** The first `n` terms of row `i` of the matrix of weights, or of their signs, times `x`. */
  function Dot(l: Layer, signs: bool, x: seq<int>, i: nat, n: nat): int
    requires l.Shaped() && i < l.outputDim && n <= |x|
  {
    if n == 0 then 0 else Dot(l, signs, x, i, n - 1) + Coefficient(l, signs, i, n - 1) * x[n - 1]
  }

  function DenseOut(l: Layer, x: seq<int>): (y: seq<int>)
    requires l.Shaped() && |x| == l.inputDim
    ensures |y| == l.outputDim
  {
    seq(l.outputDim, i requires 0 <= i < l.outputDim => Relu(l.relu, l.bias[i] + Dot(l, false, x, i, |x|)))
  }

  /** The first `n` terms of the product of the multiplicities with `x`. */
  function Counted(x: seq<int>, m: multiset<nat>, n: nat): int
    requires n <= |x|
  {
    if n == 0 then 0 else Counted(x, m, n - 1) + m[n - 1] * x[n - 1]
  }

  lemma {:induction false} CountedAppend(x: seq<int>, m: multiset<nat>, a: nat, n: nat)
    requires n <= |x| && a < |x|
    ensures Counted(x, m + multiset{a}, n) == Counted(x, m, n) + if a < n then x[a] else 0
  {
    if n > 0 {
      CountedAppend(x, m, a, n - 1);
      OneMore(m[n - 1], x[n - 1]);
    }
  }

  lemma OneMore(c: int, y: int)
    ensures (c + 1) * y == c * y + y
  {
  }

  lemma {:induction false} CountedEmpty(x: seq<int>, n: nat)
    requires n <= |x|
    ensures Counted(x, multiset{}, n) == 0
  {
    if n > 0 {
      CountedEmpty(x, n - 1);
    }
  }

  lemma {:induction false} SumAtIsCounted(x: seq<int>, idx: seq<nat>)
    requires Within(idx, |x|)
    ensures SumAt(x, idx) == Counted(x, multiset(idx), |x|)
  {
    if idx == [] {
      CountedEmpty(x, |x|);
    } else {
      var init, last := idx[..|idx| - 1], idx[|idx| - 1];
      SumAtIsCounted(x, init);
      CountedAppend(x, multiset(init), last, |x|);
      assert idx == init + [last];
    }
  }

  lemma {:induction false} DotIsCounted(l: Layer, x: seq<int>, i: nat, n: nat)
    requires l.Shaped() && i < l.outputDim && n <= |x|
    ensures Dot(l, false, x, i, n) == Counted(x, multiset(l.pos[i]), n) - Counted(x, multiset(l.neg[i]), n)
  {
    if n > 0 {
      DotIsCounted(l, x, i, n - 1);
      Difference(multiset(l.pos[i])[n - 1], multiset(l.neg[i])[n - 1], x[n - 1]);
    }
  }

  lemma Difference(a: int, b: int, y: int)
    ensures (a - b) * y == a * y - b * y
  {
  }

  lemma RowIsDot(l: Layer, x: seq<int>, i: nat)
    requires l.Shaped() && |x| == l.inputDim && i < l.outputDim
    ensures RowSum(l, x, i) == l.bias[i] + Dot(l, false, x, i, |x|)
  {
    SumAtIsCounted(x, l.pos[i]);
    SumAtIsCounted(x, l.neg[i]);
    DotIsCounted(l, x, i, |x|);
  }

  /** The index lists of every shaped layer compute the product with the matrix of weights. */
  lemma SparseIsDense(l: Layer, x: seq<int>)
    requires l.Shaped() && |x| == l.inputDim
    ensures LayerOut(l, x) == DenseOut(l, x)
  {
    forall i | 0 <= i < l.outputDim
      ensures RowSum(l, x, i) == l.bias[i] + Dot(l, false, x, i, |x|)
    {
      RowIsDot(l, x, i);
    }
  }

  /** Layers that list the same columns in any order mean the same. */
  lemma OrderFree(l: Layer, l': Layer, x: seq<int>)
    requires l.Shaped() && l'.Shaped() && |x| == l.inputDim == l'.inputDim
    requires l.outputDim == l'.outputDim && l.bias == l'.bias && l.relu == l'.relu
    requires forall i | 0 <= i < l.outputDim :: multiset(l.pos[i]) == multiset(l'.pos[i])
    requires forall i | 0 <= i < l.outputDim :: multiset(l.neg[i]) == multiset(l'.neg[i])
    ensures LayerOut(l, x) == LayerOut(l', x)
  {
    forall i | 0 <= i < l.outputDim
      ensures RowSum(l, x, i) == RowSum(l', x, i)
    {
      SumAtIsCounted(x, l.pos[i]);
      SumAtIsCounted(x, l'.pos[i]);
      SumAtIsCounted(x, l.neg[i]);
      SumAtIsCounted(x, l'.neg[i]);
    }
  }

  // --- when the weights are -1, 0 and +1 ---

  ghost predicate Distinct(s: seq<nat>) {
    forall i, j :: 0 <= i < j < |s| ==> s[i] != s[j]
  }

  lemma {:induction false} DistinctCounts(s: seq<nat>)
    ensures Distinct(s) <==> forall j: nat :: multiset(s)[j] <= 1
  {
    if s != [] {
      var init, last := s[..|s| - 1], s[|s| - 1];
      assert s == init + [last];
      DistinctCounts(init);
      if Distinct(s) {
        assert last !in init;
      } else if Distinct(init) {
        var i :| 0 <= i < |init| && s[i] == last;
        assert init[i] == last && multiset(s)[last] == multiset(init)[last] + 1;
      } else {
        var j: nat :| multiset(init)[j] > 1;
        assert multiset(s)[j] >= multiset(init)[j];
      }
    }
  }

  /** No column is on one list twice. */
  ghost predicate NoRepeat(l: Layer, i: nat)
    requires l.Shaped() && i < l.outputDim
  {
    Distinct(l.pos[i]) && Distinct(l.neg[i])
  }

  /** Of disjoint lists, every weight is -1, 0 or +1 exactly when no column is repeated; then it is the documented one. */
  lemma TernaryExactly(l: Layer, i: nat)
    requires l.Shaped() && i < l.outputDim && l.Disjoint(i)
    ensures NoRepeat(l, i) <==> forall j: nat :: -1 <= Weight(l, i, j) <= 1
    ensures NoRepeat(l, i) <==> forall j: nat :: Weight(l, i, j) == SignWeight(l, i, j)
  {
    var p, q := l.pos[i], l.neg[i];
    DistinctCounts(p);
    DistinctCounts(q);
    forall j: nat
      ensures Weight(l, i, j) == if j in p then Times(p, j) else -Times(q, j)
    {
      assert j in p <==> j in multiset(p);
      assert j in q <==> j in multiset(q);
    }
    if !NoRepeat(l, i) {
      var j: nat :| multiset(p)[j] > 1 || multiset(q)[j] > 1;
      assert multiset(p)[j] > 1 ==> j in p;
      assert multiset(q)[j] > 1 ==> j in q;
      assert !(-1 <= Weight(l, i, j) <= 1) && Weight(l, i, j) != SignWeight(l, i, j);
    }
  }

  function Unit(n: nat, j: nat): (x: seq<int>)
    ensures |x| == n
  {
    seq(n, k => if k == j then 1 else 0)
  }

  lemma {:induction false} DotUnit(l: Layer, signs: bool, i: nat, j: nat, n: nat)
    requires l.Shaped() && i < l.outputDim && n <= l.inputDim
    ensures Dot(l, signs, Unit(l.inputDim, j), i, n) == if j < n then Coefficient(l, signs, i, j) else 0
  {
    if n > 0 {
      DotUnit(l, signs, i, j, n - 1);
    }
  }

  lemma {:induction false} DotSame(l: Layer, x: seq<int>, i: nat, n: nat)
    requires l.Shaped() && i < l.outputDim && n <= |x|
    requires forall j: nat :: Weight(l, i, j) == SignWeight(l, i, j)
    ensures Dot(l, false, x, i, n) == Dot(l, true, x, i, n)
  {
    if n > 0 {
      DotSame(l, x, i, n - 1);
    }
  }

  /** Row `i` is the documented {-1, 0, +1} product on every input. */
  ghost predicate SignProduct(l: Layer, i: nat)
    requires l.Shaped() && i < l.outputDim
  {
    forall x: seq<int> | |x| == l.inputDim :: RowSum(l, x, i) == l.bias[i] + Dot(l, true, x, i, |x|)
  }

  /** Of disjoint lists, a row is the documented product exactly when no column is repeated. */
  lemma SignProductExactly(l: Layer, i: nat)
    requires l.Shaped() && i < l.outputDim && l.Disjoint(i)
    ensures SignProduct(l, i) <==> NoRepeat(l, i)
  {
    TernaryExactly(l, i);
    if NoRepeat(l, i) {
      forall x: seq<int> | |x| == l.inputDim
        ensures RowSum(l, x, i) == l.bias[i] + Dot(l, true, x, i, |x|)
      {
        RowIsDot(l, x, i);
        DotSame(l, x, i, |x|);
      }
    } else {
      var j: nat :| Weight(l, i, j) != SignWeight(l, i, j);
      WeightInRange(l, i, j);
      var x := Unit(l.inputDim, j);
      RowIsDot(l, x, i);
      DotUnit(l, false, i, j, |x|);
      DotUnit(l, true, i, j, |x|);
      assert RowSum(l, x, i) != l.bias[i] + Dot(l, true, x, i, |x|);
    }
  }

  lemma WeightInRange(l: Layer, i: nat, j: nat)
    requires l.Shaped() && i < l.outputDim && Weight(l, i, j) != SignWeight(l, i, j)
    ensures j < l.inputDim
  {
    assert j in multiset(l.pos[i]) || j in multiset(l.neg[i]);
    assert j in l.pos[i] || j in l.neg[i];
  }

  // ----- 64-bit partial sums -----

  /** Every partial sum of adding (`sign` 1) or subtracting (`sign` -1) along a list stays in 64 bits. */
  ghost predicate PartialsFit(acc: int, sign: int, x: seq<int>, idx: seq<nat>)
    requires Within(idx, |x|)
  {
    forall k :: 0 <= k <= |idx| ==> InRange(acc + sign * SumAt(x, idx[..k]))
  }

  ghost predicate RowFits(l: Layer, x: seq<int>, i: nat)
    requires l.Shaped() && |x| == l.inputDim && i < l.outputDim
  {
    && PartialsFit(l.bias[i], 1, x, l.pos[i])
    && PartialsFit(l.bias[i] + SumAt(x, l.pos[i]), -1, x, l.neg[i])
  }

  ghost predicate LayerFits(l: Layer, x: seq<int>)
    requires l.Shaped() && |x| == l.inputDim
  {
    forall i | 0 <= i < l.outputDim :: RowFits(l, x, i)
  }

  function SumAbs(x: seq<int>, idx: seq<nat>): nat
    requires Within(idx, |x|)
  {
    if idx == [] then 0 else SumAbs(x, idx[..|idx| - 1]) + Abs(x[idx[|idx| - 1]])
  }

  lemma {:induction false} PartialBound(x: seq<int>, idx: seq<nat>, k: nat)
    requires Within(idx, |x|) && k <= |idx|
    ensures Abs(SumAt(x, idx[..k])) <= SumAbs(x, idx)
    decreases |idx|
  {
    if k == |idx| {
      assert idx[..k] == idx;
      if k > 0 {
        PartialBound(x, idx[..k - 1], k - 1);
        assert idx[..k - 1][..k - 1] == idx[..k - 1];
      }
    } else {
      PartialBound(x, idx[..|idx| - 1], k);
      assert idx[..|idx| - 1][..k] == idx[..k];
    }
  }

  /** No partial sum overflows when bias and inputs of the row are small enough together. */
  lemma SmallRowFits(l: Layer, x: seq<int>, i: nat)
    requires l.Shaped() && |x| == l.inputDim && i < l.outputDim
    requires Abs(l.bias[i]) + SumAbs(x, l.pos[i]) + SumAbs(x, l.neg[i]) <= I64_MAX
    ensures RowFits(l, x, i)
  {
    var p, q := l.pos[i], l.neg[i];
    forall k | 0 <= k <= |p| ensures InRange(l.bias[i] + 1 * SumAt(x, p[..k])) { PartialBound(x, p, k); }
    PartialBound(x, p, |p|);
    assert p[..|p|] == p;
    forall k | 0 <= k <= |q| ensures InRange(l.bias[i] + SumAt(x, p) + -1 * SumAt(x, q[..k])) { PartialBound(x, q, k); }
  }

  lemma {:induction false} SumAbsBound(x: seq<int>, idx: seq<nat>, b: nat)
    requires Within(idx, |x|) && forall j :: 0 <= j < |x| ==> Abs(x[j]) <= b
    ensures SumAbs(x, idx) <= |idx| * b
  {
    if idx != [] {
      SumAbsBound(x, idx[..|idx| - 1], b);
      assert |idx| * b == (|idx| - 1) * b + b;
    }
  }

  // ----- the forward kernel -----

  /** Add (or subtract) the listed inputs with overflow checks. */
  method Accumulate(start: i64, subtract: bool, x: seq<i64>, idx: seq<nat>) returns (acc: i64, ok: bool)
    requires Within(idx, |x|)
    ensures ok <==> PartialsFit(start, if subtract then -1 else 1, x, idx)
    ensures ok ==> acc == start + (if subtract then -1 else 1) * SumAt(x, idx)
  {
    ghost var sign := if subtract then -1 else 1;
    acc := start;
    var k := 0;
    assert idx[..0] == [];
    while k < |idx|
      invariant 0 <= k <= |idx|
      invariant acc == start + sign * SumAt(x, idx[..k])
      invariant forall j :: 0 <= j <= k ==> InRange(start + sign * SumAt(x, idx[..j]))
    {
      var next: int := if subtract then acc - x[idx[k]] else acc + x[idx[k]];
      assert idx[..k + 1][..k] == idx[..k];
      assert next == start + sign * SumAt(x, idx[..k + 1]);
      if next < I64_MIN || next > I64_MAX {
        assert !InRange(start + sign * SumAt(x, idx[..k + 1]));
        return acc, false;
      }
      acc := next;
      k := k + 1;
    }
    assert idx[..|idx|] == idx;
    ok := true;
  }

  method Row(l: Layer, x: seq<i64>, i: nat) returns (acc: i64, ok: bool)
    requires l.Shaped() && |x| == l.inputDim && i < l.outputDim
    ensures ok <==> RowFits(l, x, i)
    ensures ok ==> acc == RowSum(l, x, i)
  {
    acc, ok := Accumulate(l.bias[i], false, x, l.pos[i]);
    if ok {
      acc, ok := Accumulate(acc, true, x, l.neg[i]);
    }
  }

  /** One layer, written into the caller's buffer. */
  method Forward(l: Layer, x: seq<i64>, y: array<i64>, layerIdx: nat) returns (r: Result<(), Error>)
    requires l.Shaped()
    modifies y
    ensures r.Ok? <==> |x| == l.inputDim && y.Length == l.outputDim && LayerFits(l, x)
    ensures r.Ok? ==> y[..] == LayerOut(l, x)
    ensures r.Err? ==> match r.error
                       case LayerShape(k, got, expected) =>
                         && k == layerIdx && got != expected
                         && (if |x| != l.inputDim then (got, expected) == (|x|, l.inputDim)
                             else (got, expected) == (y.Length, l.outputDim))
                       case Overflow(k, row) =>
                         && k == layerIdx && |x| == l.inputDim && row < l.outputDim
                         && !RowFits(l, x, row) && forall i | 0 <= i < row :: RowFits(l, x, i)
                       case _ => false
  {
    if |x| != l.inputDim {
      return Err(LayerShape(layerIdx, |x|, l.inputDim));
    }
    if y.Length != l.outputDim {
      return Err(LayerShape(layerIdx, y.Length, l.outputDim));
    }
    var i := 0;
    while i < l.outputDim
      invariant 0 <= i <= l.outputDim
      invariant forall k | 0 <= k < i :: RowFits(l, x, k)
      invariant forall k :: 0 <= k < i ==> y[k] == Relu(l.relu, RowSum(l, x, k))
    {
      var acc, ok := Row(l, x, i);
      if !ok {
        return Err(Overflow(layerIdx, i));
      }
      y[i] := if l.relu && acc < 0 then 0 else acc;
      i := i + 1;
    }
    r := Ok(());
  }

  // ----- networks -----

  datatype TernaryNetwork = TernaryNetwork(layers: seq<Layer>)
  {
    predicate Shaped() {
      forall k :: 0 <= k < |layers| ==> layers[k].Shaped()
    }
  }

  /** Consecutive layers fit together and no partial sum of any layer overflows. */
  ghost predicate StackFits(layers: seq<Layer>, x: seq<int>)
    requires forall k :: 0 <= k < |layers| ==> layers[k].Shaped()
    decreases |layers|
  {
    layers == [] || (|x| == layers[0].inputDim && LayerFits(layers[0], x) && StackFits(layers[1..], LayerOut(layers[0], x)))
  }

  ghost function StackOut(layers: seq<Layer>, x: seq<int>): seq<int>
    requires forall k :: 0 <= k < |layers| ==> layers[k].Shaped()
    requires StackFits(layers, x)
    decreases |layers|
  {
    if layers == [] then x else StackOut(layers[1..], LayerOut(layers[0], x))
  }

  /** The whole stack as dense matrix products. */
  ghost function DenseStack(layers: seq<Layer>, x: seq<int>): seq<int>
    requires forall k :: 0 <= k < |layers| ==> layers[k].Shaped()
    decreases |layers|
  {
    if layers == [] then x
    else if |x| != layers[0].inputDim then []
    else DenseStack(layers[1..], DenseOut(layers[0], x))
  }

  lemma {:induction false} StackIsDense(layers: seq<Layer>, x: seq<int>)
    requires forall k :: 0 <= k < |layers| ==> layers[k].Shaped()
    requires StackFits(layers, x)
    ensures StackOut(layers, x) == DenseStack(layers, x)
    decreases |layers|
  {
    if layers != [] {
      SparseIsDense(layers[0], x);
      StackIsDense(layers[1..], LayerOut(layers[0], x));
    }
  }

  /** The first row, from `i` on, with a partial sum that does not fit. */
  ghost function BadRow(l: Layer, x: seq<int>, i: nat): nat
    requires l.Shaped() && |x| == l.inputDim && i <= l.outputDim
    decreases l.outputDim - i
  {
    if i == l.outputDim || !RowFits(l, x, i) then i else BadRow(l, x, i + 1)
  }

  lemma {:induction false} BadRowIs(l: Layer, x: seq<int>, i: nat, row: nat)
    requires l.Shaped() && |x| == l.inputDim && i <= row < l.outputDim
    requires !RowFits(l, x, row) && forall k | i <= k < row :: RowFits(l, x, k)
    ensures BadRow(l, x, i) == row
    decreases row - i
  {
    if i < row {
      BadRowIs(l, x, i + 1, row);
    }
  }

  /** The fault of a stack that does not run, when its first layer is number `k`. */
  ghost function StackFault(layers: seq<Layer>, x: seq<int>, k: nat): Error
    requires forall i :: 0 <= i < |layers| ==> layers[i].Shaped()
    requires !StackFits(layers, x)
    decreases |layers|
  {
    var l := layers[0];
    if |x| != l.inputDim then (if k == 0 then InputShape(|x|, l.inputDim) else LayerShape(k, |x|, l.inputDim))
    else if !LayerFits(l, x) then Overflow(k, BadRow(l, x, 0))
    else StackFault(layers[1..], LayerOut(l, x), k + 1)
  }

  /** Run the stack, layer by layer; it succeeds exactly when shapes match and nothing overflows, else reports the first fault. */
  method RunNetwork(net: TernaryNetwork, input: seq<i64>) returns (r: Result<seq<i64>, Error>)
    requires net.Shaped()
    ensures r.Ok? <==> StackFits(net.layers, input)
    ensures r.Ok? ==> r.value == StackOut(net.layers, input)
    ensures r.Err? ==> r.error == StackFault(net.layers, input, 0)
  {
    if net.layers == [] {
      return Ok(input);
    }
    if |input| != net.layers[0].inputDim {
      return Err(InputShape(|input|, net.layers[0].inputDim));
    }
    var current := input;
    var li := 0;
    assert net.layers[0..] == net.layers;
    while li < |net.layers|
      invariant 0 <= li <= |net.layers| && (li == 0 ==> current == input)
      invariant StackFits(net.layers, input) <==> StackFits(net.layers[li..], current)
      invariant StackFits(net.layers, input) ==> StackOut(net.layers, input) == StackOut(net.layers[li..], current)
      invariant !StackFits(net.layers, input) ==> StackFault(net.layers, input, 0) == StackFault(net.layers[li..], current, li)
    {
      var layer := net.layers[li];
      assert net.layers[li..][0] == layer && net.layers[li..][1..] == net.layers[li + 1..];
      var next := new i64[layer.outputDim](_ => 0);
      var res := Forward(layer, current, next, li);
      if res.Err? {
        if res.error.Overflow? {
          BadRowIs(layer, current, 0, res.error.row);
        }
        return Err(res.error);
      }
      current := next[..];
      li := li + 1;
    }
    r := Ok(current);
  }

  /** Index of the first maximum. */
  method Argmax(logits: seq<i64>) returns (r: Result<nat, Error>)
    ensures r == Err(EmptyArgmax) <==> logits == []
    ensures logits != [] ==> r.Ok? && r.value < |logits|
    ensures r.Ok? ==> forall j :: 0 <= j < |logits| ==> logits[j] <= logits[r.value]
    ensures r.Ok? ==> forall j :: 0 <= j < r.value ==> logits[j] < logits[r.value]
  {
    var bestIdx, bestVal, found := 0, I64_MIN, false;
    var i := 0;
    while i < |logits|
      invariant 0 <= i <= |logits| && (found <==> i > 0)
      invariant bestIdx <= i && (found ==> bestIdx < i && bestVal == logits[bestIdx])
      invariant forall j :: 0 <= j < i ==> logits[j] <= bestVal
      invariant forall j :: 0 <= j < bestIdx ==> logits[j] < bestVal
    {
      if !found || logits[i] > bestVal {
        bestIdx, bestVal, found := i, logits[i], true;
      }
      i := i + 1;
    }
    r := if found then Ok(bestIdx) else Err(EmptyArgmax);
  }
}
