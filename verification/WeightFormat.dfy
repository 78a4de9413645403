/**
 Which files the reader of packed weights accepts, what it makes of them, and which of them
 the packer could have written (ternary_vm/src/weights.rs).

 A `File` is the fields of a payload one by one, with whatever follows the last layer read.
 Every payload that is read to a result is such a file in exactly one way.
 */
module WeightFormat {
  import opened Bytes
  import opened Hashing
  import opened Network
  import opened Weights

  datatype File = File(version: nat, name: Bytes, inputDim: nat, outputDim: nat, count: nat, raws: seq<Raw>, trail: Bytes)

  function RawsBytes(raws: seq<Raw>): Bytes {
    if raws == [] then [] else RawBytes(raws[0]) + RawsBytes(raws[1..])
  }

  function Counts(inputDim: nat, outputDim: nat, count: nat): (b: Bytes)
    ensures |b| == 12
  {
    ToBE(inputDim, 4) + ToBE(outputDim, 4) + ToBE(count, 4)
  }

  function FileBytes(f: File): Bytes {
    MAGIC + ToBE(f.version, 4) + ToBE(|f.name|, 2) + f.name + (Counts(f.inputDim, f.outputDim, f.count) + (RawsBytes(f.raws) + f.trail))
  }

  /** A payload with its digest. */
  function Sealed(h: HashFn, s: Bytes): Bytes { s + h(s) }

  predicate GoodFile(f: File) {
    && f.version < TWO32 && |f.name| < 0x1_0000 && f.inputDim < TWO32 && f.outputDim < TWO32 && f.count < TWO32
    && |f.raws| <= f.count && forall k :: 0 <= k < |f.raws| ==> GoodRaw(f.raws[k])
  }

  predicate AllFollowable(raws: seq<Raw>) {
    forall k :: 0 <= k < |raws| ==> Followable(raws[k])
  }

  function LayersFrom(raws: seq<Raw>): (ls: seq<Layer>)
    requires AllFollowable(raws)
    ensures |ls| == |raws|
  {
    seq(|raws|, k requires 0 <= k < |raws| => LayerFrom(raws[k]))
  }

  /** All layers are there and their row pointers can be followed. */
  predicate Whole(f: File) { GoodFile(f) && |f.raws| == f.count && AllFollowable(f.raws) }

  /** The row pointers of the last layer given lead astray, and those before it do not. */
  predicate Astray(raws: seq<Raw>) {
    raws != [] && AllFollowable(raws[..|raws| - 1]) && !Followable(raws[|raws| - 1])
  }

  predicate Broken(f: File) { GoodFile(f) && Astray(f.raws) }

  function HeaderOf(f: File, digest: Hash, digest2: Bytes64): WeightsHeader {
    WeightsHeader(f.version, f.name, f.inputDim, f.outputDim, digest, digest2)
  }

  // ----- reading the layers -----

  lemma LayerMeans(r: Raw, rest: Bytes)
    requires GoodRaw(r)
    ensures ReadLayer(RawBytes(r) + rest) == if Followable(r) then Done(LayerFrom(r), rest) else Panic
  {
    RawRead(r, rest);
  }

  lemma {:induction false} LayersMean(raws: seq<Raw>, trail: Bytes, k: nat)
    requires |raws| <= k && forall i :: 0 <= i < |raws| ==> GoodRaw(raws[i])
    ensures AllFollowable(raws) && |raws| == k ==> ReadLayers(RawsBytes(raws) + trail, k) == Done(LayersFrom(raws), trail)
    ensures Astray(raws) ==> ReadLayers(RawsBytes(raws) + trail, k) == Panic
  {
    hide ReadLayer, RawBytes, LayerFrom, Followable, GoodRaw;
    if raws == [] {
      assert RawsBytes(raws) + trail == trail;
    } else {
      var tail := raws[1..];
      Assoc(RawBytes(raws[0]), RawsBytes(tail), trail);
      LayerMeans(raws[0], RawsBytes(tail) + trail);
      LayersMean(tail, trail, k - 1);
      if AllFollowable(raws) {
        assert LayersFrom(raws) == [LayerFrom(raws[0])] + LayersFrom(tail);
      }
      if Astray(raws) && |raws| > 1 {
        assert tail[..|tail| - 1] == raws[..|raws| - 1][1..];
        assert raws[0] == raws[..|raws| - 1][0];
      }
    }
  }

  lemma LayerCame(s: Bytes) returns (r: Raw, rest: Bytes)
    requires !ReadLayer(s).Eof?
    ensures GoodRaw(r) && s == RawBytes(r) + rest
    ensures ReadLayer(s) == if Followable(r) then Done(LayerFrom(r), rest) else Panic
  {
    RawFrom(s);
    r, rest := ReadRaw(s).value, ReadRaw(s).rest;
  }

  /** What is read, or leads astray, comes from fields that stand in the input. */
  lemma {:induction false} LayersCame(s: Bytes, k: nat) returns (raws: seq<Raw>, trail: Bytes)
    requires !ReadLayers(s, k).Eof?
    ensures |raws| <= k && (forall i :: 0 <= i < |raws| ==> GoodRaw(raws[i])) && s == RawsBytes(raws) + trail
    ensures ReadLayers(s, k).Done? ==> |raws| == k && AllFollowable(raws) && ReadLayers(s, k) == Done(LayersFrom(raws), trail)
    ensures ReadLayers(s, k).Panic? ==> Astray(raws)
    decreases k
  {
    hide ReadLayer, RawBytes, LayerFrom, Followable, GoodRaw;
    if k == 0 {
      raws, trail := [], s;
      assert s == RawsBytes(raws) + trail;
    } else {
      var r, rest := LayerCame(s);
      if Followable(r) {
        var tail;
        tail, trail := LayersCame(rest, k - 1);
        raws := [r] + tail;
        assert raws[1..] == tail;
        Assoc(RawBytes(r), RawsBytes(tail), trail);
        if AllFollowable(tail) {
          assert LayersFrom(raws) == [LayerFrom(r)] + LayersFrom(tail);
        }
        if Astray(tail) {
          assert raws[..|raws| - 1] == [r] + tail[..|tail| - 1];
        }
      } else {
        raws, trail := [r], rest;
        assert raws[1..] == [] && RawsBytes([]) == [] && RawBytes(r) + [] == RawBytes(r);
      }
    }
  }

  // ----- reading the whole file -----

  /** What the reader makes of a file, and of one with row pointers that lead astray. */
  lemma FileMeans(utf8: Bytes -> bool, f: File, digest: Hash, digest2: Bytes64)
    requires GoodFile(f) && utf8(f.name)
    ensures |FileBytes(f)| >= 8
    ensures Whole(f) ==> Open(utf8, FileBytes(f), digest, digest2) == Unpacked(HeaderOf(f, digest, digest2), LayersFrom(f.raws))
    ensures Broken(f) ==> Open(utf8, FileBytes(f), digest, digest2) == PointerOutOfRange
  {
    hide ReadLayers, RawsBytes, GoodRaw, Counts, Open;
    var body := RawsBytes(f.raws) + f.trail;
    FieldValue(|f.name|, 2);
    FieldValue(f.version, 4);
    OpenParts(utf8, ToBE(f.version, 4), ToBE(|f.name|, 2), f.name, Counts(f.inputDim, f.outputDim, f.count) + body, digest, digest2);
    CountsMean(f.inputDim, f.outputDim, f.count, body);
    LayersMean(f.raws, f.trail, f.count);
  }

  lemma CountsMean(inputDim: u32, outputDim: u32, count: u32, rest: Bytes)
    ensures var t := Counts(inputDim, outputDim, count) + rest;
            t[12..] == rest && ValueBE(t[0..4]) == inputDim && ValueBE(t[4..8]) == outputDim && ValueBE(t[8..12]) == count
  {
    DimSlices(ToBE(inputDim, 4), ToBE(outputDim, 4), ToBE(count, 4), rest);
    FieldValue(inputDim, 4);
    FieldValue(outputDim, 4);
    FieldValue(count, 4);
  }

  lemma CountsCame(t: Bytes)
    requires |t| >= 12
    ensures ValueBE(t[0..4]) < TWO32 && ValueBE(t[4..8]) < TWO32 && ValueBE(t[8..12]) < TWO32
    ensures t == Counts(ValueBE(t[0..4]), ValueBE(t[4..8]), ValueBE(t[8..12])) + t[12..]
  {
    PowValues();
    ToBEValue(t[0..4]);
    ToBEValue(t[4..8]);
    ToBEValue(t[8..12]);
    assert t == t[0..4] + t[4..8] + t[8..12] + t[12..];
  }

  lemma PreludeCame(s: Bytes)
    requires |s| >= 14 && |s| >= 14 + ValueBE(s[12..14]) && s[..8] == MAGIC
    ensures var n := ValueBE(s[12..14]);
            && ValueBE(s[8..12]) < TWO32 && n < 0x1_0000
            && s == MAGIC + ToBE(ValueBE(s[8..12]), 4) + ToBE(n, 2) + s[14..14 + n] + s[14 + n..]
  {
    PowValues();
    ToBEValue(s[8..12]);
    ToBEValue(s[12..14]);
    var n := ValueBE(s[12..14]);
    assert s == s[..8] + s[8..12] + s[12..14] + s[14..14 + n] + s[14 + n..];
  }

  /** Every payload that is read to a network, or to a pointer out of range, is a file. */
  lemma FileCame(utf8: Bytes -> bool, s: Bytes, digest: Hash, digest2: Bytes64) returns (f: File)
    requires |s| >= 8 && (Open(utf8, s, digest, digest2).Unpacked? || Open(utf8, s, digest, digest2).PointerOutOfRange?)
    ensures GoodFile(f) && utf8(f.name) && s == FileBytes(f)
    ensures Open(utf8, s, digest, digest2).Unpacked? ==>
              Whole(f) && Open(utf8, s, digest, digest2) == Unpacked(HeaderOf(f, digest, digest2), LayersFrom(f.raws))
    ensures Open(utf8, s, digest, digest2).PointerOutOfRange? ==> Broken(f)
  {
    hide ReadLayers, RawsBytes, GoodRaw, Counts, ToBE, ValueBE;
    PreludeCame(s);
    var n := 14 + ValueBE(s[12..14]);
    var t := s[n..];
    CountsCame(t);
    var raws, trail := LayersCame(t[12..], ValueBE(t[8..12]));
    f := File(ValueBE(s[8..12]), s[14..n], ValueBE(t[0..4]), ValueBE(t[4..8]), ValueBE(t[8..12]), raws, trail);
  }

  lemma SealedMeans(h: HashFn, h2: Hash64, utf8: Bytes -> bool, s: Bytes)
    requires |s| >= 8
    ensures Unpack(h, h2, utf8, Sealed(h, s)) == Open(utf8, s, h(s), h2(s))
  {
    hide Open;
    var bytes := Sealed(h, s);
    assert bytes[..|bytes| - 32] == s && bytes[|bytes| - 32..] == h(s);
  }

  lemma SealedCame(h: HashFn, h2: Hash64, utf8: Bytes -> bool, bytes: Bytes) returns (s: Bytes)
    requires var u := Unpack(h, h2, utf8, bytes); !u.TooShort? && !u.HashMismatch?
    ensures |s| >= 8 && bytes == Sealed(h, s) && Unpack(h, h2, utf8, bytes) == Open(utf8, s, h(s), h2(s))
  {
    hide Open;
    s := bytes[..|bytes| - 32];
    assert bytes == s + bytes[|bytes| - 32..];
  }

  // ----- pointers out of range -----

  /** The reader panics on exactly the sealed files whose row pointers lead astray. */
  lemma PanicsExactly(h: HashFn, h2: Hash64, utf8: Bytes -> bool, bytes: Bytes)
    ensures Unpack(h, h2, utf8, bytes).PointerOutOfRange? <==>
            exists f :: Broken(f) && utf8(f.name) && bytes == Sealed(h, FileBytes(f))
  {
    hide Open, FileBytes, Broken, Whole, GoodFile;
    if Unpack(h, h2, utf8, bytes).PointerOutOfRange? {
      var s := SealedCame(h, h2, utf8, bytes);
      var f := FileCame(utf8, s, h(s), h2(s));
    }
    if f :| Broken(f) && utf8(f.name) && bytes == Sealed(h, FileBytes(f)) {
      BrokenIsGood(f);
      FileMeans(utf8, f, h(FileBytes(f)), h2(FileBytes(f)));
      SealedMeans(h, h2, utf8, FileBytes(f));
    }
  }

  lemma BrokenIsGood(f: File)
    requires Broken(f)
    ensures GoodFile(f)
  {
  }

  /** One layer of one row that claims a column it does not have. */
  function BadPointerFile(): File {
    File(1, [], 0, 1, 1, [Raw(0, 1, 0, Csr([0, 1], []), Csr([0, 0], []), [0])], [])
  }

  lemma BadPointerPanics(h: HashFn, h2: Hash64, utf8: Bytes -> bool)
    requires utf8([])
    ensures Unpack(h, h2, utf8, Sealed(h, FileBytes(BadPointerFile()))) == PointerOutOfRange
  {
    var f := BadPointerFile();
    var r := f.raws[0];
    assert !InColumns(r.pos, 0);
    assert Broken(f);
    FileMeans(utf8, f, h(FileBytes(f)), h2(FileBytes(f)));
    SealedMeans(h, h2, utf8, FileBytes(f));
  }

  // ----- bytes after the last layer -----

  function RawsOf(ls: seq<Layer>): (raws: seq<Raw>)
    ensures |raws| == |ls|
  {
    seq(|ls|, k requires 0 <= k < |ls| => RawOf(ls[k]))
  }

  /** The file that packing writes, with something after it. */
  function PackedFile(name: Bytes, inputDim: u32, outputDim: u32, ls: seq<Layer>, trail: Bytes): File {
    File(1, name, inputDim, outputDim, |ls|, RawsOf(ls), trail)
  }

  lemma {:induction false} PackedBytes(ls: seq<Layer>)
    ensures PackLayers(ls) == RawsBytes(RawsOf(ls))
  {
    if ls != [] {
      PackedBytes(ls[1..]);
      assert RawsOf(ls)[1..] == RawsOf(ls[1..]);
    }
  }

  lemma PackedPayload(name: Bytes, inputDim: u32, outputDim: u32, ls: seq<Layer>, trail: Bytes)
    requires |name| < 0x1_0000 && |ls| < TWO32
    ensures Payload(name, inputDim, outputDim, ls) + trail == FileBytes(PackedFile(name, inputDim, outputDim, ls, trail))
  {
    hide ToBE, PackLayers, RawsBytes;
    assert |name| % 0x1_0000 == |name| && |ls| % TWO32 == |ls|;
    PackedBytes(ls);
    assert Dims(inputDim, outputDim, |ls|) == Counts(inputDim, outputDim, |ls|);
    Unroll(Prelude(name), name, Dims(inputDim, outputDim, |ls|), PackLayers(ls), trail);
  }

  lemma Unroll(a: Bytes, b: Bytes, c: Bytes, d: Bytes, e: Bytes)
    ensures a + b + c + d + e == a + b + (c + (d + e))
  {
  }

  lemma PackedIsWhole(name: Bytes, inputDim: u32, outputDim: u32, ls: seq<Layer>, trail: Bytes)
    requires Fits(name, ls)
    ensures var f := PackedFile(name, inputDim, outputDim, ls, trail); Whole(f) && LayersFrom(f.raws) == ls
  {
    hide GoodRaw, Followable, RawOf, LayerFrom, Regular;
    var raws := RawsOf(ls);
    forall k | 0 <= k < |ls|
      ensures GoodRaw(raws[k]) && Followable(raws[k]) && LayerFrom(raws[k]) == ls[k]
    {
      RawOfIsGood(ls[k]);
    }
    assert LayersFrom(raws) == ls;
  }

  /** Whatever follows the last layer, under a digest of its own, changes no layer and no field. */
  lemma TrailingBytesIgnored(h: HashFn, h2: Hash64, utf8: Bytes -> bool, name: Bytes, inputDim: u32, outputDim: u32,
                             ls: seq<Layer>, extra: Bytes)
    requires Fits(name, ls) && utf8(name)
    ensures var s := Payload(name, inputDim, outputDim, ls) + extra;
            Unpack(h, h2, utf8, Sealed(h, s)) == Unpacked(WeightsHeader(1, name, inputDim, outputDim, h(s), h2(s)), ls)
  {
    hide Open, FileBytes, Whole, Payload;
    var f := PackedFile(name, inputDim, outputDim, ls, extra);
    var s := FileBytes(f);
    PackedPayload(name, inputDim, outputDim, ls, extra);
    PackedIsWhole(name, inputDim, outputDim, ls, extra);
    WholeIsGood(f);
    FileMeans(utf8, f, h(s), h2(s));
    SealedMeans(h, h2, utf8, s);
  }

  lemma WholeIsGood(f: File)
    requires Whole(f)
    ensures GoodFile(f)
  {
  }

  /** Unpacking what was packed gives back every layer and header field, with both digests of the payload. */
  lemma UnpackOfPack(h: HashFn, h2: Hash64, utf8: Bytes -> bool, name: Bytes, inputDim: u32, outputDim: u32, ls: seq<Layer>)
    requires Fits(name, ls) && utf8(name)
    ensures var p := Payload(name, inputDim, outputDim, ls);
            Unpack(h, h2, utf8, Pack(h, name, inputDim, outputDim, ls))
              == Unpacked(WeightsHeader(1, name, inputDim, outputDim, h(p), h2(p)), ls)
  {
    hide Unpack, Payload;
    TrailingBytesIgnored(h, h2, utf8, name, inputDim, outputDim, ls, []);
    assert Payload(name, inputDim, outputDim, ls) + [] == Payload(name, inputDim, outputDim, ls);
  }

  // ----- what the packer could have written -----

  predicate TidyCsr(c: Csr, n: nat) {
    |c.ptrs| == n + 1 && c.ptrs[0] == 0 && c.ptrs[n] == |c.cols|
  }

  /** The activation byte is a bit, and the row pointers run from the first column to the last. */
  predicate Tidy(r: Raw) {
    r.relu <= 1 && TidyCsr(r.pos, r.outputDim) && TidyCsr(r.neg, r.outputDim)
  }

  /** From row `i` on the pointers rise, and stay within the columns. */
  lemma {:induction false} PointersRise(c: Csr, n: nat, i: nat)
    requires Sliceable(c, n) && |c.ptrs| == n + 1 && i <= n
    ensures c.ptrs[i] <= c.ptrs[n] && (i < n ==> c.ptrs[n] <= |c.cols|)
    decreases n - i
  {
    if i < n {
      assert InColumns(c, i);
      PointersRise(c, n, i + 1);
    }
  }

  /** Where the rows from `i` on start. */
  lemma {:induction false} StartsFrom(c: Csr, n: nat, i: nat)
    requires Sliceable(c, n) && |c.ptrs| == n + 1 && Below(c.ptrs, TWO32) && i <= n
    ensures Starts(Rows(c, n)[i..], c.ptrs[i]) == c.ptrs[i..]
    decreases n - i
  {
    hide Rows, Sliceable, Starts, Below;
    if i < n {
      StartsFrom(c, n, i + 1);
      RowAndRest(c, n, i);
      RowThenRest(RowAt(c, i), Rows(c, n)[i + 1..], c.ptrs[i]);
      RowLength(c, i);
      assert c.ptrs[i..] == [c.ptrs[i]] + c.ptrs[i + 1..];
    } else {
      assert Rows(c, n)[i..] == [] && c.ptrs[i..] == [c.ptrs[i]];
      NoRows(c.ptrs[i]);
    }
  }

  /** The columns of the rows from `i` on. */
  lemma {:induction false} FlatFrom(c: Csr, n: nat, i: nat)
    requires Sliceable(c, n) && |c.ptrs| == n + 1 && i < n
    ensures c.ptrs[i] <= c.ptrs[n] <= |c.cols| && Flat(Rows(c, n)[i..]) == c.cols[c.ptrs[i]..c.ptrs[n]]
    decreases n - i
  {
    hide Rows, Sliceable, Flat;
    PointersRise(c, n, i);
    PointersRise(c, n, i + 1);
    RowAndRest(c, n, i);
    RowThenRest(RowAt(c, i), Rows(c, n)[i + 1..], c.ptrs[i]);
    if i + 1 < n {
      FlatFrom(c, n, i + 1);
      Adjacent(c.cols, c.ptrs[i], c.ptrs[i + 1], c.ptrs[n]);
    } else {
      assert Rows(c, n)[i + 1..] == [] && RowAt(c, i) + [] == RowAt(c, i);
      NoRows(0);
    }
  }

  lemma RowLength(c: Csr, i: nat)
    requires InColumns(c, i) && Below(c.ptrs, TWO32)
    ensures c.ptrs[i] + |RowAt(c, i)| % TWO32 == c.ptrs[i + 1]
  {
    assert c.ptrs[i + 1] < TWO32;
  }

  lemma RowAndRest(c: Csr, n: nat, i: nat)
    requires Sliceable(c, n) && i < n
    ensures InColumns(c, i) && Rows(c, n)[i..] == [RowAt(c, i)] + Rows(c, n)[i + 1..]
  {
    assert Rows(c, n)[i] == RowAt(c, i);
  }

  lemma RowThenRest(row: seq<nat>, rest: seq<seq<nat>>, p: nat)
    ensures Starts([row] + rest, p) == [p] + Starts(rest, p + |row| % TWO32) && Flat([row] + rest) == row + Flat(rest)
  {
    assert ([row] + rest)[1..] == rest;
  }

  lemma NoRows(p: nat)
    ensures Starts([], p) == [p] && Flat([]) == []
  {
  }

  lemma Adjacent(s: seq<nat>, x: nat, y: nat, z: nat)
    requires x <= y <= z <= |s|
    ensures s[x..z] == s[x..y] + s[y..z]
  {
  }

  /** The rows that pointers and columns stand for are written as these pointers and columns exactly when they are tidy. */
  lemma CsrTidy(c: Csr, n: nat)
    requires Sliceable(c, n) && GoodCsr(c, n)
    ensures CsrOf(Rows(c, n)) == c <==> TidyCsr(c, n)
    ensures |Flat(Rows(c, n))| < TWO32 && Below(Flat(Rows(c, n)), TWO32)
  {
    var rows := Rows(c, n);
    StartsFrom(c, n, 0);
    assert rows[0..] == rows && c.ptrs[0..] == c.ptrs;
    FirstStart(rows, 0);
    if n > 0 {
      FlatFrom(c, n, 0);
      assert c.cols[0..|c.cols|] == c.cols;
      assert c.ptrs[n] < TWO32;
    }
  }

  lemma BiasesBack(words: seq<nat>)
    requires Below(words, TWO64)
    ensures Words(Biases(words)) == words
  {
    forall i | 0 <= i < |words|
      ensures Words(Biases(words))[i] == words[i]
    {
      assert words[i] % TWO64 == words[i];
    }
  }

  /** A layer that was read is regular, and is written as it was read exactly when its fields are tidy. */
  lemma RawTidy(r: Raw)
    requires GoodRaw(r) && Followable(r)
    ensures Regular(LayerFrom(r)) && (RawOf(LayerFrom(r)) == r <==> Tidy(r))
  {
    hide Rows, Sliceable, CsrOf, Flat, Below, TidyCsr, GoodCsr, Words, Biases;
    assert GoodCsr(r.pos, r.outputDim) && GoodCsr(r.neg, r.outputDim);
    CsrTidy(r.pos, r.outputDim);
    CsrTidy(r.neg, r.outputDim);
    BiasesBack(r.words);
    assert r.inputDim % TWO32 == r.inputDim && r.outputDim % TWO32 == r.outputDim;
  }

  lemma {:induction false} RawsInjective(a: seq<Raw>, x: Bytes, b: seq<Raw>, y: Bytes)
    requires |a| == |b| && RawsBytes(a) + x == RawsBytes(b) + y
    requires forall k :: 0 <= k < |a| ==> GoodRaw(a[k]) && GoodRaw(b[k])
    ensures a == b && x == y
  {
    hide RawBytes, GoodRaw;
    if a == [] {
      assert RawsBytes(a) + x == x && RawsBytes(b) + y == y;
    } else {
      Assoc(RawBytes(a[0]), RawsBytes(a[1..]), x);
      Assoc(RawBytes(b[0]), RawsBytes(b[1..]), y);
      RawRead(a[0], RawsBytes(a[1..]) + x);
      RawRead(b[0], RawsBytes(b[1..]) + y);
      RawsInjective(a[1..], x, b[1..], y);
      assert a == [a[0]] + a[1..] && b == [b[0]] + b[1..];
    }
  }

  /** Two files with one payload are one file. */
  lemma FileInjective(f: File, g: File)
    requires GoodFile(f) && GoodFile(g) && f.count == |f.raws| && g.count == |g.raws| && FileBytes(f) == FileBytes(g)
    ensures f == g
  {
    hide RawsBytes, GoodRaw, Counts, ToBE, ValueBE;
    var a, b := RawsBytes(f.raws) + f.trail, RawsBytes(g.raws) + g.trail;
    PreludeSlices(MAGIC, ToBE(f.version, 4), ToBE(|f.name|, 2), f.name, Counts(f.inputDim, f.outputDim, f.count) + a);
    PreludeSlices(MAGIC, ToBE(g.version, 4), ToBE(|g.name|, 2), g.name, Counts(g.inputDim, g.outputDim, g.count) + b);
    FieldValue(f.version, 4);
    FieldValue(g.version, 4);
    FieldValue(|f.name|, 2);
    FieldValue(|g.name|, 2);
    CountsMean(f.inputDim, f.outputDim, f.count, a);
    CountsMean(g.inputDim, g.outputDim, g.count, b);
    RawsInjective(f.raws, f.trail, g.raws, g.trail);
  }

  /** Different networks have different payloads. */
  lemma PayloadInjective(name: Bytes, inputDim: u32, outputDim: u32, ls: seq<Layer>,
                         name': Bytes, inputDim': u32, outputDim': u32, ls': seq<Layer>)
    requires Fits(name, ls) && Fits(name', ls')
    requires Payload(name, inputDim, outputDim, ls) == Payload(name', inputDim', outputDim', ls')
    ensures name == name' && inputDim == inputDim' && outputDim == outputDim' && ls == ls'
  {
    hide Payload, FileBytes, LayersFrom, GoodRaw, AllFollowable;
    var f, f' := PackedFile(name, inputDim, outputDim, ls, []), PackedFile(name', inputDim', outputDim', ls', []);
    PackedPayload(name, inputDim, outputDim, ls, []);
    PackedPayload(name', inputDim', outputDim', ls', []);
    PackedIsWhole(name, inputDim, outputDim, ls, []);
    PackedIsWhole(name', inputDim', outputDim', ls', []);
    FileInjective(f, f');
  }

  /** The digest commits to the network: equal digests mean equal networks, or the two payloads collide. */
  lemma DigestCommits(h: HashFn, name: Bytes, inputDim: u32, outputDim: u32, ls: seq<Layer>,
                      name': Bytes, inputDim': u32, outputDim': u32, ls': seq<Layer>)
    requires Fits(name, ls) && Fits(name', ls')
    requires h(Payload(name, inputDim, outputDim, ls)) == h(Payload(name', inputDim', outputDim', ls'))
    ensures (name == name' && inputDim == inputDim' && outputDim == outputDim' && ls == ls')
         || Collision(h, Payload(name, inputDim, outputDim, ls), Payload(name', inputDim', outputDim', ls'))
  {
    if Payload(name, inputDim, outputDim, ls) == Payload(name', inputDim', outputDim', ls') {
      PayloadInjective(name, inputDim, outputDim, ls, name', inputDim', outputDim', ls');
    }
  }

  /** The packer could have written it. */
  predicate Canonical(f: File) {
    f.version == 1 && f.trail == [] && forall k :: 0 <= k < |f.raws| ==> Tidy(f.raws[k])
  }

  lemma CanonicalExactly(f: File)
    requires Whole(f)
    ensures Fits(f.name, LayersFrom(f.raws))
    ensures PackedFile(f.name, f.inputDim, f.outputDim, LayersFrom(f.raws), []) == f <==> Canonical(f)
  {
    hide GoodRaw, Followable, LayerFrom, RawOf, Regular, Tidy;
    var ls := LayersFrom(f.raws);
    forall k | 0 <= k < |f.raws|
      ensures Regular(ls[k]) && (RawsOf(ls)[k] == f.raws[k] <==> Tidy(f.raws[k]))
    {
      RawTidy(f.raws[k]);
    }
    assert RawsOf(ls) == f.raws <==> forall k :: 0 <= k < |f.raws| ==> RawsOf(ls)[k] == f.raws[k];
  }

  /**
   What is unpacked and packed again is the same bytes exactly when the file's version is 1,
   every activation byte is a bit, all row pointers run from the first column to the last, and
   nothing trails.
   */
  lemma RepackExactly(h: HashFn, h2: Hash64, utf8: Bytes -> bool, bytes: Bytes) returns (f: File)
    requires Unpack(h, h2, utf8, bytes).Unpacked?
    ensures Whole(f) && bytes == Sealed(h, FileBytes(f))
    ensures var u := Unpack(h, h2, utf8, bytes);
            && u.header.version == f.version && u.header.name == f.name && u.layers == LayersFrom(f.raws)
            && u.header.inputDim == f.inputDim && u.header.outputDim == f.outputDim
            && (Pack(h, f.name, f.inputDim, f.outputDim, u.layers) == bytes <==> Canonical(f))
  {
    hide Open, FileBytes, Payload, Canonical;
    var s := SealedCame(h, h2, utf8, bytes);
    f := FileCame(utf8, s, h(s), h2(s));
    CanonicalExactly(f);
    var ls := LayersFrom(f.raws);
    var g := PackedFile(f.name, f.inputDim, f.outputDim, ls, []);
    var p := Payload(f.name, f.inputDim, f.outputDim, ls);
    PackedPayload(f.name, f.inputDim, f.outputDim, ls, []);
    assert p + [] == p;
    PackedIsWhole(f.name, f.inputDim, f.outputDim, ls, []);
    if Sealed(h, p) == bytes {
      ConcatSplitEnd(p, h(p), s, h(s));
      FileInjective(f, g);
    }
  }

  lemma ConcatSplitEnd(a: Bytes, b: Bytes, c: Bytes, d: Bytes)
    requires a + b == c + d && |b| == |d|
    ensures a == c && b == d
  {
    ConcatSplit(a, b, c, d);
  }

  // ----- what can be run -----

  lemma {:induction false} InFlat(rows: seq<seq<nat>>, x: nat)
    ensures x in Flat(rows) <==> exists i :: 0 <= i < |rows| && x in rows[i]
  {
    if rows != [] {
      InFlat(rows[1..], x);
      if i :| 0 <= i < |rows| && x in rows[i] {
        assert i > 0 ==> rows[1..][i - 1] == rows[i];
      }
      if x in Flat(rows[1..]) {
        var i :| 0 <= i < |rows[1..]| && x in rows[1..][i];
        assert rows[i + 1] == rows[1..][i];
      }
    }
  }

  /** An unpacked layer can be run exactly when its columns are below its input dimension. */
  lemma ReadyToRun(h: HashFn, h2: Hash64, utf8: Bytes -> bool, bytes: Bytes, k: nat)
    requires Unpack(h, h2, utf8, bytes).Unpacked? && k < |Unpack(h, h2, utf8, bytes).layers|
    ensures var l := Unpack(h, h2, utf8, bytes).layers[k];
            l.Shaped() <==> Below(Flat(l.pos), l.inputDim) && Below(Flat(l.neg), l.inputDim)
  {
    hide Open, FileBytes, Payload, Canonical, RawBytes;
    var f := RepackExactly(h, h2, utf8, bytes);
    CanonicalExactly(f);
    ShapedExactly(LayersFrom(f.raws)[k]);
  }

  lemma ShapedExactly(l: Layer)
    requires Regular(l)
    ensures l.Shaped() <==> Below(Flat(l.pos), l.inputDim) && Below(Flat(l.neg), l.inputDim)
  {
    RowsWithin(l.pos, l.inputDim);
    RowsWithin(l.neg, l.inputDim);
  }

  lemma RowsWithin(rows: seq<seq<nat>>, n: nat)
    ensures Below(Flat(rows), n) <==> forall i, k :: 0 <= i < |rows| && 0 <= k < |rows[i]| ==> rows[i][k] < n
  {
    if Below(Flat(rows), n) {
      forall i, k | 0 <= i < |rows| && 0 <= k < |rows[i]|
        ensures rows[i][k] < n
      {
        InFlat(rows, rows[i][k]);
      }
    } else {
      var j :| 0 <= j < |Flat(rows)| && Flat(rows)[j] >= n;
      InFlat(rows, Flat(rows)[j]);
    }
  }
}
