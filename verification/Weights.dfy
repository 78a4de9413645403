/**
 The packed weight format (ternary_vm/src/weights.rs).

 Sparse rows are written as row pointers followed by all columns, integers are
 big-endian, and a digest of everything before it closes the file.  `Unpack` is what
 reading means on every byte string, well-formed or not.
 */
module Weights {
  import opened Bytes
  import opened Hashing
  import opened Network

  const TWO32: nat := 0x1_0000_0000

  // "TVMW0001"
  const MAGIC: Bytes := [84, 86, 77, 87, 48, 48, 48, 49]

  // ----- writing -----

  /** Integers one after the other, `n` bytes each. */
  function Numerals(l: seq<nat>, n: nat): Bytes {
    if l == [] then [] else ToBE(l[0], n) + Numerals(l[1..], n)
  }

  function Flat(rows: seq<seq<nat>>): seq<nat> {
    if rows == [] then [] else rows[0] + Flat(rows[1..])
  }

  /** Where each row starts, counting from `p`, and where the last one ends; lengths are cut to 32 bits. */
  function Starts(rows: seq<seq<nat>>, p: nat): (s: seq<nat>)
    ensures |s| == |rows| + 1
  {
    if rows == [] then [p] else [p] + Starts(rows[1..], p + |rows[0]| % TWO32)
  }

  /** Where the running pointer ends. */
  function Pointer(rows: seq<seq<nat>>): nat {
    if rows == [] then 0 else |rows[0]| % TWO32 + Pointer(rows[1..])
  }

  /** Two's complement on 64 bits, and back. */
  function Word(b: i64): u64 { if b < 0 then b + TWO64 else b }
  function Unword(w: u64): i64 { if w > I64_MAX then w - TWO64 else w }

  function Words(bias: seq<i64>): (w: seq<nat>)
    ensures |w| == |bias|
  {
    seq(|bias|, i requires 0 <= i < |bias| => Word(bias[i]))
  }

  predicate Below(l: seq<nat>, bound: nat) {
    forall k :: 0 <= k < |l| ==> l[k] < bound
  }

  /** Columns fit 32 bits, as their type says, and so does the running pointer, or packing panics. */
  predicate PackableRows(rows: seq<seq<nat>>) {
    Pointer(rows) < TWO32 && Below(Flat(rows), TWO32)
  }

  predicate Packable(l: Layer) {
    PackableRows(l.pos) && PackableRows(l.neg)
  }

  /** Row pointers and all columns. */
  datatype Csr = Csr(ptrs: seq<nat>, cols: seq<nat>)

  /** The fields of a layer as they stand in a file. */
  datatype Raw = Raw(inputDim: nat, outputDim: nat, relu: byte, pos: Csr, neg: Csr, words: seq<nat>)

  function RawHead(r: Raw): (b: Bytes)
    ensures |b| == 25
  {
    ToBE(r.inputDim, 4) + ToBE(r.outputDim, 4) + [r.relu] + ToBE(|r.pos.cols| % TWO64, 8) + ToBE(|r.neg.cols| % TWO64, 8)
  }

  function CsrBytes(c: Csr): Bytes { Numerals(c.ptrs, 4) + Numerals(c.cols, 4) }

  function RawBytes(r: Raw): Bytes {
    RawHead(r) + CsrBytes(r.pos) + CsrBytes(r.neg) + Numerals(r.words, 8)
  }

  function CsrOf(rows: seq<seq<nat>>): Csr { Csr(Starts(rows, 0), Flat(rows)) }

  function RawOf(l: Layer): Raw {
    Raw(l.inputDim % TWO32, l.outputDim % TWO32, if l.relu then 1 else 0, CsrOf(l.pos), CsrOf(l.neg), Words(l.bias))
  }

  function PackLayer(l: Layer): Bytes { RawBytes(RawOf(l)) }

  function PackLayers(ls: seq<Layer>): Bytes {
    if ls == [] then [] else PackLayer(ls[0]) + PackLayers(ls[1..])
  }

  function Prelude(name: Bytes): (b: Bytes)
    ensures |b| == 14
  {
    MAGIC + ToBE(1, 4) + ToBE(|name| % 0x1_0000, 2)
  }

  function Dims(inputDim: u32, outputDim: u32, n: nat): (b: Bytes)
    ensures |b| == 12
  {
    ToBE(inputDim, 4) + ToBE(outputDim, 4) + ToBE(n % TWO32, 4)
  }

  function Payload(name: Bytes, inputDim: u32, outputDim: u32, ls: seq<Layer>): Bytes {
    Prelude(name) + name + Dims(inputDim, outputDim, |ls|) + PackLayers(ls)
  }

  function Pack(h: HashFn, name: Bytes, inputDim: u32, outputDim: u32, ls: seq<Layer>): Bytes {
    var p := Payload(name, inputDim, outputDim, ls);
    p + h(p)
  }

  method PushStarts(buf: Bytes, rows: seq<seq<nat>>) returns (out: Bytes)
    ensures out == buf + Numerals(Starts(rows, 0), 4)
  {
    out := buf;
    var ptr: nat := 0;
    ghost var all := buf + Numerals(Starts(rows, 0), 4);
    for i := 0 to |rows|
      invariant out + Numerals(Starts(rows[i..], ptr), 4) == all
    {
      ghost var rest := Starts(rows[i + 1..], ptr + |rows[i]| % TWO32);
      assert rows[i..][1..] == rows[i + 1..];
      NumeralsCons(ptr, rest, 4);
      Assoc(out, ToBE(ptr, 4), Numerals(rest, 4));
      out := out + ToBE(ptr, 4);
      ptr := ptr + |rows[i]| % TWO32;
    }
    NumeralsCons(ptr, [], 4);
    out := out + ToBE(ptr, 4);
  }

  lemma NumeralsCons(x: nat, l: seq<nat>, n: nat)
    ensures Numerals([x] + l, n) == ToBE(x, n) + Numerals(l, n)
    ensures Numerals([x], n) == ToBE(x, n)
  {
    assert ([x] + l)[1..] == l && [x][1..] == [];
  }

  method PushColumns(buf: Bytes, rows: seq<seq<nat>>) returns (out: Bytes)
    ensures out == buf + Numerals(Flat(rows), 4)
  {
    out := buf;
    ghost var all := buf + Numerals(Flat(rows), 4);
    for i := 0 to |rows|
      invariant out + Numerals(Flat(rows[i..]), 4) == all
    {
      var row := rows[i];
      ghost var rest := Flat(rows[i + 1..]);
      assert rows[i..][1..] == rows[i + 1..];
      assert row[0..] == row;
      for j := 0 to |row|
        invariant out + Numerals(row[j..] + rest, 4) == all
      {
        assert row[j..] + rest == [row[j]] + (row[j + 1..] + rest);
        NumeralsCons(row[j], row[j + 1..] + rest, 4);
        Assoc(out, ToBE(row[j], 4), Numerals(row[j + 1..] + rest, 4));
        out := out + ToBE(row[j], 4);
      }
      assert row[|row|..] + rest == rest;
    }
  }

  method PushBias(buf: Bytes, bias: seq<i64>) returns (out: Bytes)
    ensures out == buf + Numerals(Words(bias), 8)
  {
    out := buf;
    ghost var all := buf + Numerals(Words(bias), 8);
    assert bias[0..] == bias;
    for i := 0 to |bias|
      invariant out + Numerals(Words(bias[i..]), 8) == all
    {
      assert Words(bias[i..]) == [Word(bias[i])] + Words(bias[i + 1..]);
      NumeralsCons(Word(bias[i]), Words(bias[i + 1..]), 8);
      Assoc(out, ToBE(Word(bias[i]), 8), Numerals(Words(bias[i + 1..]), 8));
      out := out + ToBE(Word(bias[i]), 8);
    }
  }

  method CountEntries(rows: seq<seq<nat>>) returns (n: nat)
    ensures n == |Flat(rows)|
  {
    n := 0;
    for i := 0 to |rows|
      invariant n + |Flat(rows[i..])| == |Flat(rows)|
    {
      assert rows[i..][1..] == rows[i + 1..];
      n := n + |rows[i]|;
    }
  }

  method PushLayer(buf: Bytes, l: Layer) returns (out: Bytes)
    requires Packable(l)
    ensures out == buf + PackLayer(l)
  {
    var nnzPos := CountEntries(l.pos);
    var nnzNeg := CountEntries(l.neg);
    var head := ToBE(l.inputDim % TWO32, 4) + ToBE(l.outputDim % TWO32, 4) + [if l.relu then 1 else 0]
                + ToBE(nnzPos % TWO64, 8) + ToBE(nnzNeg % TWO64, 8);
    out := buf + head;
    out := PushStarts(out, l.pos);
    out := PushColumns(out, l.pos);
    out := PushStarts(out, l.neg);
    out := PushColumns(out, l.neg);
    out := PushBias(out, l.bias);
    Regroup(buf, head, Numerals(Starts(l.pos, 0), 4), Numerals(Flat(l.pos), 4),
            Numerals(Starts(l.neg, 0), 4), Numerals(Flat(l.neg), 4), Numerals(Words(l.bias), 8));
  }

  lemma Regroup(buf: Bytes, a: Bytes, b: Bytes, c: Bytes, d: Bytes, e: Bytes, f: Bytes)
    ensures buf + a + b + c + d + e + f == buf + (a + (b + c) + (d + e) + f)
  {
  }

  method Start(name: Bytes, inputDim: u32, outputDim: u32, layers: nat) returns (buf: Bytes)
    ensures buf == Prelude(name) + name + Dims(inputDim, outputDim, layers)
  {
    buf := MAGIC;
    buf := buf + ToBE(1, 4);
    buf := buf + ToBE(|name| % 0x1_0000, 2);
    buf := buf + name;
    buf := buf + (ToBE(inputDim, 4) + ToBE(outputDim, 4) + ToBE(layers % TWO32, 4));
  }

  /** Pack a network; the digest is of everything before it. */
  method PackWeights(h: HashFn, name: Bytes, inputDim: u32, outputDim: u32, ls: seq<Layer>) returns (buf: Bytes, digest: Hash)
    requires forall k :: 0 <= k < |ls| ==> Packable(ls[k])
    ensures buf == Pack(h, name, inputDim, outputDim, ls) && digest == h(Payload(name, inputDim, outputDim, ls))
  {
    buf := Start(name, inputDim, outputDim, |ls|);
    assert ls[0..] == ls;
    for i := 0 to |ls|
      invariant buf + PackLayers(ls[i..]) == Payload(name, inputDim, outputDim, ls)
    {
      assert ls[i..][1..] == ls[i + 1..];
      Assoc(buf, PackLayer(ls[i]), PackLayers(ls[i + 1..]));
      buf := PushLayer(buf, ls[i]);
    }
    assert buf + PackLayers(ls[|ls|..]) == buf;
    digest := h(buf);
    buf := buf + digest;
  }

  // ----- reading -----

  /** A value and the bytes after it; or the input ended; or a row pointer was out of range. */
  datatype Parse<T> = Done(value: T, rest: Bytes) | Eof | Panic

  function Number(s: Bytes, n: nat): Parse<nat> {
    if |s| < n then Eof else Done(ValueBE(s[..n]), s[n..])
  }

  /** Put values already read in front. */
  function After<T>(l: seq<T>, p: Parse<seq<T>>): Parse<seq<T>> {
    match p
    case Done(v, rest) => Done(l + v, rest)
    case Eof => Eof
    case Panic => Panic
  }

  function Numbers(s: Bytes, k: nat, n: nat): Parse<seq<nat>> {
    if k == 0 then Done([], s)
    else
      match Number(s, n)
      case Done(x, rest) => After([x], Numbers(rest, k - 1, n))
      case _ => Eof
  }

  function ReadCsr(s: Bytes, rows: nat, nnz: nat): Parse<Csr> {
    var p := Numbers(s, rows + 1, 4);
    if !p.Done? then Eof
    else
      var c := Numbers(p.rest, nnz, 4);
      if !c.Done? then Eof else Done(Csr(p.value, c.value), c.rest)
  }

  predicate InColumns(c: Csr, i: nat) {
    i + 1 < |c.ptrs| && c.ptrs[i] <= c.ptrs[i + 1] <= |c.cols|
  }

  /** Every pair of neighbouring row pointers is a range of the columns. */
  predicate Sliceable(c: Csr, n: nat) {
    forall i: nat | i < n :: InColumns(c, i)
  }

  function RowAt(c: Csr, i: nat): seq<nat>
    requires InColumns(c, i)
  {
    c.cols[c.ptrs[i]..c.ptrs[i + 1]]
  }

  function Rows(c: Csr, n: nat): (r: seq<seq<nat>>)
    requires Sliceable(c, n)
    ensures |r| == n
  {
    seq(n, i requires 0 <= i < n => assert InColumns(c, i); RowAt(c, i))
  }

  datatype Head = Head(inputDim: nat, outputDim: nat, relu: byte, nnzPos: nat, nnzNeg: nat)

  function ReadHead(s: Bytes): Parse<Head> {
    if |s| < 25 then Eof
    else Done(Head(ValueBE(s[0..4]), ValueBE(s[4..8]), s[8], ValueBE(s[9..17]), ValueBE(s[17..25])), s[25..])
  }

  /** The bias values of eight-byte words. */
  function Biases(w: seq<nat>): (b: seq<i64>)
    ensures |b| == |w|
  {
    seq(|w|, i requires 0 <= i < |w| => Unword(w[i] % TWO64))
  }

  function ReadBody(s: Bytes, d: Head): Parse<Raw> {
    var pos := ReadCsr(s, d.outputDim, d.nnzPos);
    if !pos.Done? then Eof
    else
      var neg := ReadCsr(pos.rest, d.outputDim, d.nnzNeg);
      if !neg.Done? then Eof
      else
        var words := Numbers(neg.rest, d.outputDim, 8);
        if !words.Done? then Eof
        else Done(Raw(d.inputDim, d.outputDim, d.relu, pos.value, neg.value, words.value), words.rest)
  }

  function ReadRaw(s: Bytes): Parse<Raw> {
    var d := ReadHead(s);
    if !d.Done? then Eof else ReadBody(d.rest, d.value)
  }

  /** The row pointers of both signs can be followed. */
  predicate Followable(r: Raw) {
    Sliceable(r.pos, r.outputDim) && Sliceable(r.neg, r.outputDim)
  }

  function LayerFrom(r: Raw): Layer
    requires Followable(r)
  {
    Layer(r.inputDim, r.outputDim, Rows(r.pos, r.outputDim), Rows(r.neg, r.outputDim), Biases(r.words), r.relu != 0)
  }

  function ReadLayer(s: Bytes): Parse<Layer> {
    match ReadRaw(s)
    case Done(r, rest) => if Followable(r) then Done(LayerFrom(r), rest) else Panic
    case _ => Eof
  }

  function ReadLayers(s: Bytes, k: nat): Parse<seq<Layer>>
    decreases k
  {
    if k == 0 then Done([], s)
    else
      match ReadLayer(s)
      case Done(l, rest) => After([l], ReadLayers(rest, k - 1))
      case Eof => Eof
      case Panic => Panic
  }

  // ----- each reader inverts its writer -----

  lemma NumberOf(x: nat, n: nat, rest: Bytes)
    requires x < Pow256(n)
    ensures Number(ToBE(x, n) + rest, n) == Done(x, rest)
  {
    ValueToBE(x, n);
    var s := ToBE(x, n) + rest;
    assert s[..n] == ToBE(x, n) && s[n..] == rest;
  }

  lemma {:induction false} NumbersOf(l: seq<nat>, n: nat, rest: Bytes)
    requires forall i :: 0 <= i < |l| ==> l[i] < Pow256(n)
    ensures Numbers(Numerals(l, n) + rest, |l|, n) == Done(l, rest)
  {
    if l == [] {
      assert Numerals(l, n) + rest == rest;
    } else {
      NumbersOf(l[1..], n, rest);
      Assoc(ToBE(l[0], n), Numerals(l[1..], n), rest);
      NumbersCons(l[0], l[1..], n, Numerals(l[1..], n) + rest, rest);
      assert [l[0]] + l[1..] == l;
    }
  }

  lemma NumbersCons(x: nat, l: seq<nat>, n: nat, tail: Bytes, rest: Bytes)
    requires x < Pow256(n) && Numbers(tail, |l|, n) == Done(l, rest)
    ensures Numbers(ToBE(x, n) + tail, |l| + 1, n) == Done([x] + l, rest)
  {
    NumberOf(x, n, tail);
  }

  /** What was read is what the numerals say, and they say it in the only way. */
  lemma {:induction false} NumbersFrom(s: Bytes, k: nat, n: nat)
    requires Numbers(s, k, n).Done?
    ensures var p := Numbers(s, k, n); |p.value| == k && Below(p.value, Pow256(n)) && s == Numerals(p.value, n) + p.rest
  {
    if k > 0 {
      var x, rest := ValueBE(s[..n]), s[n..];
      NumbersFrom(rest, k - 1, n);
      var p := Numbers(rest, k - 1, n);
      ToBEValue(s[..n]);
      NumeralsCons(x, p.value, n);
      Assoc(ToBE(x, n), Numerals(p.value, n), p.rest);
      assert s == s[..n] + rest;
    } else {
      assert s == [] + s;
    }
  }

  /** Row pointers are within the columns and give the rows back. */
  lemma {:induction false} StartsAt(rows: seq<seq<nat>>, pre: seq<nat>, i: nat)
    requires i < |rows| && |Flat(rows)| < TWO32
    ensures var p := Starts(rows, |pre|);
            p[i] <= p[i + 1] <= |pre| + |Flat(rows)| && (pre + Flat(rows))[p[i]..p[i + 1]] == rows[i]
  {
    assert |rows[0]| % TWO32 == |rows[0]|;
    var p := Starts(rows, |pre|);
    var q := Starts(rows[1..], |pre| + |rows[0]|);
    assert p == [|pre|] + q;
    FirstStart(rows[1..], |pre| + |rows[0]|);
    if i == 0 {
      assert (pre + (rows[0] + Flat(rows[1..])))[|pre|..|pre| + |rows[0]|] == rows[0];
    } else {
      StartsAt(rows[1..], pre + rows[0], i - 1);
      assert pre + Flat(rows) == pre + rows[0] + Flat(rows[1..]);
      assert p[i] == q[i - 1] && p[i + 1] == q[i];
    }
  }

  lemma FirstStart(rows: seq<seq<nat>>, p: nat)
    ensures Starts(rows, p)[0] == p
  {
  }

  lemma {:induction false} StartsBound(rows: seq<seq<nat>>, p: nat, i: nat)
    requires i <= |rows|
    ensures Starts(rows, p)[i] <= p + Pointer(rows) && Pointer(rows) <= |Flat(rows)|
  {
    if rows != [] {
      assert |rows[0]| % TWO32 <= |rows[0]|;
      StartsBound(rows[1..], p + |rows[0]| % TWO32, if i > 0 then i - 1 else 0);
    }
  }

  /** Row pointers and columns stand for the rows they were made from. */
  lemma RowsOf(rows: seq<seq<nat>>)
    requires |Flat(rows)| < TWO32
    ensures Sliceable(CsrOf(rows), |rows|) && Rows(CsrOf(rows), |rows|) == rows
  {
    var c := CsrOf(rows);
    forall i: nat | i < |rows|
      ensures InColumns(c, i) && RowAt(c, i) == rows[i]
    {
      StartsAt(rows, [], i);
      assert [] + Flat(rows) == Flat(rows);
    }
  }

  /** Fields that a file can hold. */
  predicate GoodCsr(c: Csr, rows: nat) {
    |c.ptrs| == rows + 1 && Below(c.ptrs, TWO32) && Below(c.cols, TWO32) && |c.cols| < TWO64
  }

  predicate GoodRaw(r: Raw) {
    && r.inputDim < TWO32 && r.outputDim < TWO32
    && GoodCsr(r.pos, r.outputDim) && GoodCsr(r.neg, r.outputDim)
    && |r.words| == r.outputDim && Below(r.words, TWO64)
  }

  lemma CsrRead(c: Csr, rows: nat, rest: Bytes)
    requires GoodCsr(c, rows)
    ensures ReadCsr(CsrBytes(c) + rest, rows, |c.cols|) == Done(c, rest)
  {
    PowValues();
    Assoc(Numerals(c.ptrs, 4), Numerals(c.cols, 4), rest);
    NumbersOf(c.ptrs, 4, Numerals(c.cols, 4) + rest);
    NumbersOf(c.cols, 4, rest);
  }

  lemma CsrFrom(s: Bytes, rows: nat, nnz: nat)
    requires ReadCsr(s, rows, nnz).Done? && nnz < TWO64
    ensures var p := ReadCsr(s, rows, nnz); GoodCsr(p.value, rows) && |p.value.cols| == nnz && s == CsrBytes(p.value) + p.rest
  {
    PowValues();
    NumbersFrom(s, rows + 1, 4);
    var p := Numbers(s, rows + 1, 4);
    NumbersFrom(p.rest, nnz, 4);
    var q := Numbers(p.rest, nnz, 4);
    Assoc(Numerals(p.value, 4), Numerals(q.value, 4), q.rest);
  }

  lemma HeadOfFields(a: u32, b: u32, c: byte, d: u64, e: u64, rest: Bytes)
    ensures ReadHead(ToBE(a, 4) + ToBE(b, 4) + [c] + ToBE(d, 8) + ToBE(e, 8) + rest) == Done(Head(a, b, c, d, e), rest)
  {
    HeadSlices(ToBE(a, 4), ToBE(b, 4), c, ToBE(d, 8), ToBE(e, 8), rest);
    FieldValue(a, 4);
    FieldValue(b, 4);
    FieldValue(d, 8);
    FieldValue(e, 8);
  }

  lemma FieldsOfHead(s: Bytes)
    requires ReadHead(s).Done?
    ensures var d := ReadHead(s).value;
            && d.inputDim < TWO32 && d.outputDim < TWO32 && d.nnzPos < TWO64 && d.nnzNeg < TWO64
            && s == ToBE(d.inputDim, 4) + ToBE(d.outputDim, 4) + [d.relu] + ToBE(d.nnzPos, 8) + ToBE(d.nnzNeg, 8) + s[25..]
  {
    PowValues();
    ToBEValue(s[0..4]);
    ToBEValue(s[4..8]);
    ToBEValue(s[9..17]);
    ToBEValue(s[17..25]);
    assert s == s[0..4] + s[4..8] + [s[8]] + s[9..17] + s[17..25] + s[25..];
  }

  lemma FieldValue(v: nat, n: nat)
    ensures n == 2 && v < 0x1_0000 ==> ValueBE(ToBE(v, n)) == v
    ensures n == 4 && v < TWO32 ==> ValueBE(ToBE(v, n)) == v
    ensures n == 8 && v < TWO64 ==> ValueBE(ToBE(v, n)) == v
  {
    PowValues();
    if v < Pow256(n) {
      ValueToBE(v, n);
    }
  }

  lemma HeadSlices(a: Bytes, b: Bytes, c: byte, d: Bytes, e: Bytes, rest: Bytes)
    requires |a| == |b| == 4 && |d| == |e| == 8
    ensures var s := a + b + [c] + d + e + rest;
            |s| >= 25 && s[0..4] == a && s[4..8] == b && s[8] == c && s[9..17] == d && s[17..25] == e && s[25..] == rest
  {
  }

  lemma Unnest(a: Bytes, b: Bytes, c: Bytes, d: Bytes, e: Bytes)
    ensures a + b + c + d + e == a + (b + (c + (d + e)))
  {
  }

  /** Reading gives back the fields that were written. */
  lemma RawRead(r: Raw, rest: Bytes)
    requires GoodRaw(r)
    ensures ReadRaw(RawBytes(r) + rest) == Done(r, rest)
  {
    hide ReadHead, ReadCsr, Numbers, Numerals, RawHead, CsrBytes;
    var w := Numerals(r.words, 8);
    Unnest(RawHead(r), CsrBytes(r.pos), CsrBytes(r.neg), w, rest);
    RawHeadRead(r, CsrBytes(r.pos) + (CsrBytes(r.neg) + (w + rest)));
    CsrRead(r.pos, r.outputDim, CsrBytes(r.neg) + (w + rest));
    CsrRead(r.neg, r.outputDim, w + rest);
    PowValues();
    NumbersOf(r.words, 8, rest);
  }

  lemma RawHeadRead(r: Raw, rest: Bytes)
    requires GoodRaw(r)
    ensures ReadHead(RawHead(r) + rest) == Done(Head(r.inputDim, r.outputDim, r.relu, |r.pos.cols|, |r.neg.cols|), rest)
  {
    assert |r.pos.cols| % TWO64 == |r.pos.cols| && |r.neg.cols| % TWO64 == |r.neg.cols|;
    HeadOfFields(r.inputDim, r.outputDim, r.relu, |r.pos.cols|, |r.neg.cols|, rest);
  }

  /** Whatever is read was written in the only way, and the fields fit. */
  lemma RawFrom(s: Bytes)
    requires ReadRaw(s).Done?
    ensures var p := ReadRaw(s); GoodRaw(p.value) && s == RawBytes(p.value) + p.rest
  {
    hide ReadHead, ReadCsr, Numbers, Numerals, RawHead, CsrBytes;
    FieldsOfHead(s);
    var d := ReadHead(s).value;
    ReadHeadRest(s);
    CsrFrom(s[25..], d.outputDim, d.nnzPos);
    var pos := ReadCsr(s[25..], d.outputDim, d.nnzPos);
    CsrFrom(pos.rest, d.outputDim, d.nnzNeg);
    var neg := ReadCsr(pos.rest, d.outputDim, d.nnzNeg);
    PowValues();
    NumbersFrom(neg.rest, d.outputDim, 8);
    var w := Numbers(neg.rest, d.outputDim, 8);
    var r := ReadRaw(s).value;
    RawHeadIs(r, d);
    Unnest(RawHead(r), CsrBytes(r.pos), CsrBytes(r.neg), Numerals(r.words, 8), w.rest);
  }

  lemma ReadHeadRest(s: Bytes)
    requires ReadHead(s).Done?
    ensures |s| >= 25 && ReadHead(s).rest == s[25..]
  {
  }

  lemma RawHeadIs(r: Raw, d: Head)
    requires d == Head(r.inputDim, r.outputDim, r.relu, |r.pos.cols|, |r.neg.cols|) && d.nnzPos < TWO64 && d.nnzNeg < TWO64
    ensures RawHead(r) == ToBE(d.inputDim, 4) + ToBE(d.outputDim, 4) + [d.relu] + ToBE(d.nnzPos, 8) + ToBE(d.nnzNeg, 8)
  {
    hide ToBE;
    assert d.nnzPos % TWO64 == d.nnzPos && d.nnzNeg % TWO64 == d.nnzNeg;
  }

  lemma WordsOf(bias: seq<i64>)
    ensures Below(Words(bias), TWO64) && Biases(Words(bias)) == bias
  {
    forall i | 0 <= i < |bias|
      ensures Biases(Words(bias))[i] == bias[i]
    {
      UnwordOf(bias[i]);
    }
  }

  lemma UnwordOf(b: i64)
    ensures Unword(Word(b) % TWO64) == b
  {
    assert Word(b) % TWO64 == Word(b);
  }

  /** One row list and one bias for each output, and 32-bit dimensions, counts and columns. */
  predicate Regular(l: Layer) {
    && |Flat(l.pos)| < TWO32 && Below(Flat(l.pos), TWO32) && |Flat(l.neg)| < TWO32 && Below(Flat(l.neg), TWO32)
    && |l.pos| == |l.neg| == |l.bias| == l.outputDim
    && l.inputDim < TWO32 && l.outputDim < TWO32
  }

  lemma CsrIsGood(rows: seq<seq<nat>>)
    requires |Flat(rows)| < TWO32 && Below(Flat(rows), TWO32)
    ensures GoodCsr(CsrOf(rows), |rows|)
  {
    forall i | 0 <= i < |Starts(rows, 0)|
      ensures Starts(rows, 0)[i] < TWO32
    {
      StartsBound(rows, 0, i);
    }
  }

  /** The fields of a regular layer fit a file and stand for that layer. */
  lemma RawOfIsGood(l: Layer)
    requires Regular(l)
    ensures GoodRaw(RawOf(l)) && Followable(RawOf(l)) && LayerFrom(RawOf(l)) == l
  {
    CsrIsGood(l.pos);
    CsrIsGood(l.neg);
    RowsOf(l.pos);
    RowsOf(l.neg);
    WordsOf(l.bias);
    assert l.inputDim % TWO32 == l.inputDim && l.outputDim % TWO32 == l.outputDim;
  }

  // ----- the whole file -----

  datatype WeightsHeader = WeightsHeader(version: nat, name: Bytes, inputDim: nat, outputDim: nat, digest: Hash, digest2: Bytes64)

  datatype Unpacked =
    | Unpacked(header: WeightsHeader, layers: seq<Layer>)
    | TooShort
    | HashMismatch
    | BadMagic
    | BadName
    | EndOfInput
    | PointerOutOfRange

  /** What a payload says, given its two digests; bytes after the last layer are not looked at. */
  function Open(utf8: Bytes -> bool, s: Bytes, digest: Hash, digest2: Bytes64): Unpacked
    requires |s| >= 8
  {
    if s[..8] != MAGIC then BadMagic
    else if |s| < 14 || |s| < 14 + ValueBE(s[12..14]) then EndOfInput
    else
      var n := 14 + ValueBE(s[12..14]);
      if !utf8(s[14..n]) then BadName else OpenLayers(s[14..n], ValueBE(s[8..12]), s[n..], digest, digest2)
  }

  function OpenLayers(name: Bytes, version: nat, t: Bytes, digest: Hash, digest2: Bytes64): Unpacked {
    if |t| < 12 then EndOfInput
    else
      match ReadLayers(t[12..], ValueBE(t[8..12]))
      case Done(ls, _) => Unpacked(WeightsHeader(version, name, ValueBE(t[0..4]), ValueBE(t[4..8]), digest, digest2), ls)
      case Eof => EndOfInput
      case Panic => PointerOutOfRange
  }

  type Hash64 = Bytes -> Bytes64

  function Unpack(h: HashFn, h2: Hash64, utf8: Bytes -> bool, bytes: Bytes): Unpacked {
    if |bytes| < 40 then TooShort
    else
      var payload := bytes[..|bytes| - 32];
      if bytes[|bytes| - 32..] != h(payload) then HashMismatch else Open(utf8, payload, h(payload), h2(payload))
  }

  /** A network that fits the format. */
  ghost predicate Fits(name: Bytes, ls: seq<Layer>) {
    |name| < 0x1_0000 && |ls| < TWO32 && forall k :: 0 <= k < |ls| ==> Regular(ls[k])
  }

  /** Opening a prelude, a name and what follows. */
  lemma OpenParts(utf8: Bytes -> bool, version: Bytes, len: Bytes, name: Bytes, t: Bytes, digest: Hash, digest2: Bytes64)
    requires |version| == 4 && |len| == 2 && ValueBE(len) == |name| && utf8(name)
    ensures var s := MAGIC + version + len + name + t;
            |s| >= 8 && Open(utf8, s, digest, digest2) == OpenLayers(name, ValueBE(version), t, digest, digest2)
  {
    PreludeSlices(MAGIC, version, len, name, t);
  }

  lemma PreludeSlices(magic: Bytes, version: Bytes, len: Bytes, name: Bytes, t: Bytes)
    requires |magic| == 8 && |version| == 4 && |len| == 2
    ensures var s := magic + version + len + name + t;
            && |s| >= 14 + |name| && s[..8] == magic && s[8..12] == version && s[12..14] == len
            && s[14..14 + |name|] == name && s[14 + |name|..] == t
  {
  }

  lemma DimSlices(a: Bytes, b: Bytes, c: Bytes, rest: Bytes)
    requires |a| == |b| == |c| == 4
    ensures var t := a + b + c + rest; t[0..4] == a && t[4..8] == b && t[8..12] == c && t[12..] == rest
  {
  }

  // ----- the cursor -----

  class Cursor {
    const buf: Bytes
    var off: nat

    ghost predicate Valid()
      reads this
    {
      off <= |buf|
    }

    ghost function Rest(): Bytes
      requires Valid()
      reads this
    {
      buf[off..]
    }

    constructor (buf: Bytes)
      ensures Valid() && Rest() == buf
    {
      this.buf, off := buf, 0;
    }

    method Take(n: nat) returns (r: Option<Bytes>)
      requires Valid()
      modifies this
      ensures Valid() && (r.None? <==> |old(Rest())| < n) && (r.None? ==> off == old(off))
      ensures r.Some? ==> |r.value| == n && old(Rest()) == r.value + Rest()
    {
      if off + n > |buf| {
        return None;
      }
      r := Some(buf[off..off + n]);
      off := off + n;
    }

    method ReadNumber(n: nat) returns (r: Parse<nat>)
      requires Valid()
      modifies this
      ensures Valid() && r == Number(old(Rest()), n) && (r.Done? ==> Rest() == r.rest)
    {
      var b := Take(n);
      if b.None? {
        return Eof;
      }
      r := Done(ValueBE(b.value), buf[off..]);
      assert old(Rest())[..n] == b.value && old(Rest())[n..] == Rest();
    }

    method ReadNumbers(k: nat, n: nat) returns (r: Parse<seq<nat>>)
      requires Valid()
      modifies this
      ensures Valid() && r == Numbers(old(Rest()), k, n) && (r.Done? ==> Rest() == r.rest)
    {
      var l: seq<nat> := [];
      AfterNil(Numbers(Rest(), k, n));
      for i := 0 to k
        invariant Valid() && After(l, Numbers(Rest(), k - i, n)) == Numbers(old(Rest()), k, n)
      {
        var x := ReadNumber(n);
        if x.Eof? {
          return Eof;
        }
        AfterAfter(l, x.value, Numbers(x.rest, k - i - 1, n));
        l := l + [x.value];
      }
      assert l + [] == l;
      r := Done(l, buf[off..]);
    }

    method ReadLayerHead() returns (r: Parse<Head>)
      requires Valid()
      modifies this
      ensures Valid() && r == ReadHead(old(Rest())) && (r.Done? ==> Rest() == r.rest)
    {
      hide ValueBE;
      ghost var s := Rest();
      var a := ReadNumber(4);
      if a.Eof? {
        return Eof;
      }
      var b := ReadNumber(4);
      if b.Eof? {
        return Eof;
      }
      assert s[4..][..4] == s[4..8] && s[4..][4..] == s[8..];
      var c := Take(1);
      if c.None? {
        return Eof;
      }
      assert s[8..] == c.value + Rest() && Rest() == s[9..] && c.value[0] == s[8];
      var d := ReadNumber(8);
      if d.Eof? {
        return Eof;
      }
      assert s[9..][..8] == s[9..17] && s[9..][8..] == s[17..];
      var e := ReadNumber(8);
      if e.Eof? {
        return Eof;
      }
      assert s[17..][..8] == s[17..25] && s[17..][8..] == s[25..];
      r := Done(Head(a.value, b.value, c.value[0], d.value, e.value), buf[off..]);
    }

    method ReadPointersAndColumns(rows: nat, nnz: nat) returns (r: Parse<Csr>)
      requires Valid()
      modifies this
      ensures Valid() && r == ReadCsr(old(Rest()), rows, nnz) && (r.Done? ==> Rest() == r.rest)
    {
      var p := ReadNumbers(rows + 1, 4);
      if !p.Done? {
        return Eof;
      }
      var c := ReadNumbers(nnz, 4);
      r := if c.Done? then Done(Csr(p.value, c.value), c.rest) else Eof;
    }

    method ReadFields() returns (r: Parse<Raw>)
      requires Valid()
      modifies this
      ensures Valid() && r == ReadRaw(old(Rest())) && (r.Done? ==> Rest() == r.rest)
    {
      var d := ReadLayerHead();
      if !d.Done? {
        return Eof;
      }
      var n := d.value.outputDim;
      var p := ReadPointersAndColumns(n, d.value.nnzPos);
      if !p.Done? {
        return Eof;
      }
      var q := ReadPointersAndColumns(n, d.value.nnzNeg);
      if !q.Done? {
        return Eof;
      }
      var words := ReadNumbers(n, 8);
      if !words.Done? {
        return Eof;
      }
      r := Done(Raw(d.value.inputDim, n, d.value.relu, p.value, q.value, words.value), words.rest);
    }

    method ReadOneLayer() returns (r: Parse<Layer>)
      requires Valid()
      modifies this
      ensures Valid() && r == ReadLayer(old(Rest())) && (r.Done? ==> Rest() == r.rest)
    {
      hide ReadRaw;
      var raw := ReadFields();
      if !raw.Done? {
        return Eof;
      }
      var n := raw.value.outputDim;
      var pos := SliceRows(raw.value.pos, n);
      var neg := SliceRows(raw.value.neg, n);
      if pos.None? || neg.None? {
        return Panic;
      }
      r := Done(Layer(raw.value.inputDim, n, pos.value, neg.value, Biases(raw.value.words), raw.value.relu != 0), raw.rest);
    }

    /** Read one more of `k` layers to come and put it behind `ls`. */
    method ReadNext(ls: seq<Layer>, ghost k: nat, ghost all: Parse<seq<Layer>>) returns (r: Parse<seq<Layer>>)
      requires Valid() && k > 0 && Expected(ls, Rest(), k) == all
      modifies this
      ensures Valid() && if r.Done? then Expected(r.value, Rest(), k - 1) == all else r == all
    {
      ghost var s := Rest();
      var l := ReadOneLayer();
      OneLayerMore(ls, s, k, l, all);
      match l {
        case Done(v, rest) => r := Done(ls + [v], rest);
        case Eof => r := Eof;
        case Panic => r := Panic;
      }
    }

    method ReadAllLayers(k: nat) returns (r: Parse<seq<Layer>>)
      requires Valid()
      modifies this
      ensures Valid() && r == Expected([], old(Rest()), k)
    {
      hide ReadLayer, ReadLayers;
      var ls: seq<Layer> := [];
      var left := k;
      ghost var all := Expected(ls, Rest(), k);
      while left > 0
        invariant Valid() && Expected(ls, Rest(), left) == all
      {
        var next := ReadNext(ls, left, all);
        if !next.Done? {
          return next;
        }
        ls, left := next.value, left - 1;
      }
      NothingMore(ls, Rest(), left, all);
      r := Done(ls, buf[off..]);
    }
  }

  /** The outcome when `ls` has been read and `k` layers are to come from `s`. */
  function Expected(ls: seq<Layer>, s: Bytes, k: nat): Parse<seq<Layer>> {
    After(ls, ReadLayers(s, k))
  }

  lemma NothingMore(ls: seq<Layer>, s: Bytes, k: nat, all: Parse<seq<Layer>>)
    requires k == 0 && Expected(ls, s, k) == all
    ensures all == Done(ls, s)
  {
    assert ls + [] == ls;
  }

  /** What is left to read after one more layer, or how reading it failed. */
  lemma OneLayerMore(ls: seq<Layer>, s: Bytes, k: nat, p: Parse<Layer>, all: Parse<seq<Layer>>)
    requires k > 0 && p == ReadLayer(s) && Expected(ls, s, k) == all
    ensures p.Done? ==> Expected(ls + [p.value], p.rest, k - 1) == all
    ensures p.Eof? ==> all == Eof
    ensures p.Panic? ==> all == Panic
  {
    if p.Done? {
      AfterAfter(ls, p.value, ReadLayers(p.rest, k - 1));
    }
  }

  lemma AfterNil<T>(p: Parse<seq<T>>)
    ensures After([], p) == p
  {
    if p.Done? {
      assert [] + p.value == p.value;
    }
  }

  lemma AfterAfter<T>(l: seq<T>, x: T, p: Parse<seq<T>>)
    ensures After(l, After([x], p)) == After(l + [x], p)
  {
    if p.Done? {
      assert l + ([x] + p.value) == l + [x] + p.value;
    }
  }

  /** Cut the columns at the row pointers; none when a pointer is out of range, where the program panics. */
  method SliceRows(c: Csr, n: nat) returns (r: Option<seq<seq<nat>>>)
    ensures r == if Sliceable(c, n) then Some(Rows(c, n)) else None
  {
    var rows: seq<seq<nat>> := [];
    for i := 0 to n
      invariant |rows| == i
      invariant forall j: nat | j < i :: InColumns(c, j) && rows[j] == RowAt(c, j)
    {
      if !(i + 1 < |c.ptrs| && c.ptrs[i] <= c.ptrs[i + 1] <= |c.cols|) {
        assert !InColumns(c, i);
        return None;
      }
      rows := rows + [c.cols[c.ptrs[i]..c.ptrs[i + 1]]];
    }
    assert rows == Rows(c, n);
    r := Some(rows);
  }

  lemma SplitAt(s: Bytes, k: nat, a: Bytes, b: Bytes)
    requires k <= |s| && s[k..] == a + b
    ensures k + |a| <= |s| && s[k..k + |a|] == a && s[k + |a|..] == b
  {
    assert s[k..k + |a|] == s[k..][..|a|] && s[k + |a|..] == s[k..][|a|..];
  }

  method UnpackWeights(h: HashFn, h2: Hash64, utf8: Bytes -> bool, bytes: Bytes) returns (r: Unpacked)
    ensures r == Unpack(h, h2, utf8, bytes)
  {
    if |bytes| < 40 {
      return TooShort;
    }
    var payload := bytes[..|bytes| - 32];
    if bytes[|bytes| - 32..] != h(payload) {
      return HashMismatch;
    }
    r := OpenPayload(utf8, payload, h(payload), h2(payload));
  }

  method OpenPayload(utf8: Bytes -> bool, s: Bytes, digest: Hash, digest2: Bytes64) returns (r: Unpacked)
    requires |s| >= 8
    ensures r == Open(utf8, s, digest, digest2)
  {
    var cur := new Cursor(s);
    var magic := cur.Take(8);
    SplitAt(s, 0, magic.value, cur.Rest());
    if magic.value != MAGIC {
      return BadMagic;
    }
    var version := cur.ReadNumber(4);
    if version.Eof? {
      return EndOfInput;
    }
    assert s[8..][..4] == s[8..12] && s[8..][4..] == s[12..];
    var len := cur.ReadNumber(2);
    if len.Eof? {
      return EndOfInput;
    }
    assert s[12..][..2] == s[12..14] && s[12..][2..] == s[14..];
    var name := cur.Take(len.value);
    if name.None? {
      return EndOfInput;
    }
    SplitAt(s, 14, name.value, cur.Rest());
    if !utf8(name.value) {
      return BadName;
    }
    r := OpenRest(cur, name.value, version.value, digest, digest2);
  }

  method OpenRest(cur: Cursor, name: Bytes, version: nat, digest: Hash, digest2: Bytes64) returns (r: Unpacked)
    requires cur.Valid()
    modifies cur
    ensures r == OpenLayers(name, version, old(cur.Rest()), digest, digest2)
  {
    ghost var t := cur.Rest();
    var inputDim := cur.ReadNumber(4);
    if inputDim.Eof? {
      return EndOfInput;
    }
    var outputDim := cur.ReadNumber(4);
    if outputDim.Eof? {
      return EndOfInput;
    }
    assert t[4..][..4] == t[4..8] && t[4..][4..] == t[8..];
    var n := cur.ReadNumber(4);
    if n.Eof? {
      return EndOfInput;
    }
    assert t[8..][..4] == t[8..12] && t[8..][4..] == t[12..];
    AfterNil(ReadLayers(cur.Rest(), n.value));
    var ls := cur.ReadAllLayers(n.value);
    match ls {
      case Done(layers, _) => r := Unpacked(WeightsHeader(version, name, inputDim.value, outputDim.value, digest, digest2), layers);
      case Eof => r := EndOfInput;
      case Panic => r := PointerOutOfRange;
    }
  }
}
