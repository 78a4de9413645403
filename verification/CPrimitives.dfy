/**
 The byte loops of the C primitives (primitives/common.h, primitives/transfer_check.c), in
 place on arrays of any width; the program uses 16 bytes for balances and 8 for nonces.
 Source and destination may be the same array.
 */
module CPrimitives {
  import opened Bytes
  import opened ByteNetworks
  import opened Chains

  method AddInPlace(dst: array<byte>, src: array<byte>) returns (carry: byte)
    requires dst.Length == src.Length
    modifies dst
    ensures carry <= 1
    ensures ValueLE(old(dst[..])) + ValueLE(old(src[..])) == ValueLE(dst[..]) + carry * Pow256(dst.Length)
  {
    ghost var a, b := dst[..], src[..];
    carry := 0;
    var i := 0;
    while i < dst.Length
      invariant 0 <= i <= dst.Length && carry <= 1
      invariant forall k :: i <= k < dst.Length ==> dst[k] == a[k] && src[k] == b[k]
      invariant ValueLE(a[..i]) + ValueLE(b[..i]) + 0 == ValueLE(dst[..i]) + carry * Pow256(i)
    {
      ghost var low, c := dst[..i], carry;
      var sum: int := dst[i] + src[i] + carry;
      if sum >= 256 {
        carry, sum := 1, sum - 256;
      } else {
        carry := 0;
      }
      dst[i] := sum;
      assert dst[..i + 1][..i] == low;
      AddStep(a, b, dst[..i + 1], i, c, 0);
      i := i + 1;
    }
    assert dst[..i] == dst[..] && a[..i] == a && b[..i] == b;
  }

  method SubInPlace(dst: array<byte>, src: array<byte>) returns (borrow: byte)
    requires dst.Length == src.Length
    modifies dst
    ensures borrow <= 1
    ensures ValueLE(old(dst[..])) - ValueLE(old(src[..])) == ValueLE(dst[..]) - borrow * Pow256(dst.Length)
    ensures borrow == 0 <==> ValueLE(old(dst[..])) >= ValueLE(old(src[..]))
  {
    ghost var a, b := dst[..], src[..];
    borrow := 0;
    var i := 0;
    while i < dst.Length
      invariant 0 <= i <= dst.Length && borrow <= 1
      invariant forall k :: i <= k < dst.Length ==> dst[k] == a[k] && src[k] == b[k]
      invariant ValueLE(a[..i]) - ValueLE(b[..i]) == ValueLE(dst[..i]) - borrow * Pow256(i)
    {
      ghost var low, c := dst[..i], borrow;
      var diff: int := dst[i] - src[i] - borrow;
      if diff < 0 {
        borrow, diff := 1, diff + 256;
      } else {
        borrow := 0;
      }
      dst[i] := diff;
      assert dst[..i + 1][..i] == low;
      SubStep(a, b, dst[..i + 1], i, c);
      i := i + 1;
    }
    assert dst[..i] == dst[..] && a[..i] == a && b[..i] == b;
    BorrowDecides(a, b, dst[..], borrow);
  }

  /** The increment stops at the first byte that does not overflow. */
  method IncInPlace(bytes: array<byte>)
    modifies bytes
    ensures ValueLE(bytes[..]) == (ValueLE(old(bytes[..])) + 1) % Pow256(bytes.Length)
  {
    ghost var a := bytes[..];
    var carry: byte := 1;
    var i := 0;
    assert ValueLE(bytes[..i]) == ValueLE(a[..i]) == 0 && Pow256(i) == 1;
    hide ValueLE, Pow256;
    while i < bytes.Length && carry != 0
      invariant 0 <= i <= bytes.Length && carry <= 1
      invariant forall k :: i <= k < bytes.Length ==> bytes[k] == a[k]
      invariant ValueLE(a[..i]) + 1 == ValueLE(bytes[..i]) + if carry == 1 then Pow256(i) else 0
    {
      ghost var low := bytes[..i];
      var v: int := bytes[i] + carry;
      if v >= 256 {
        v, carry := v - 256, 1;
      } else {
        carry := 0;
      }
      bytes[i] := v;
      assert bytes[..i + 1][..i] == low;
      IncStep(a, bytes[..i + 1], i);
      i := i + 1;
    }
    assert bytes[..][..i] == bytes[..i] && bytes[..][i..] == a[i..];
    Incremented(a, bytes[..], i, carry);
  }

  lemma IncStep(a: Bytes, b: Bytes, i: nat)
    requires i < |a| && |b| == i + 1 && ValueLE(a[..i]) + 1 == ValueLE(b[..i]) + Pow256(i)
    requires b[i] == if a[i] == 255 then 0 else a[i] + 1
    ensures ValueLE(a[..i + 1]) + 1 == ValueLE(b) + if a[i] == 255 then Pow256(i + 1) else 0
  {
    assert b[..i + 1] == b && Pow256(i + 1) == 256 * Pow256(i);
    hide ValueLE, Pow256;
    ValueLEAppend(a, i);
    ValueLEAppend(b, i);
    IncArith(Pow256(i), a[i], b[i]);
  }

  lemma IncArith(p: int, x: byte, y: byte)
    requires y == if x == 255 then 0 else x + 1
    ensures p * x + p == p * y + if x == 255 then 256 * p else 0
  {
    assert x != 255 ==> p * (x + 1) == p * x + p;
  }

  /** The bytes below `i` were incremented, with the carry left over at the end only. */
  lemma Incremented(a: Bytes, b: Bytes, i: nat, carry: byte)
    requires |a| == |b| && i <= |a| && carry <= 1 && (i == |a| || carry == 0) && b[i..] == a[i..]
    requires ValueLE(a[..i]) + 1 == ValueLE(b[..i]) + if carry == 1 then Pow256(i) else 0
    ensures ValueLE(b) == (ValueLE(a) + 1) % Pow256(|a|)
  {
    hide ValueLE, Pow256;
    if carry == 0 {
      Untouched(a, b, i);
    } else {
      assert a[..i] == a && b[..i] == b;
    }
    ValueLEBound(b);
    LessOnce(ValueLE(a) + 1, ValueLE(b), carry == 1, Pow256(|a|));
  }

  lemma LessOnce(v: nat, low: nat, over: bool, p: nat)
    requires low < p && v == low + if over then p else 0
    ensures v % p == low
  {
    ModOnce(v, low, if over then 1 else 0, p);
  }

  /** When the carry is gone the higher bytes are as they were. */
  lemma Untouched(a: Bytes, b: Bytes, i: nat)
    requires |a| == |b| && i <= |a| && b[i..] == a[i..] && ValueLE(a[..i]) + 1 == ValueLE(b[..i])
    ensures ValueLE(a) + 1 == ValueLE(b)
  {
    assert a == a[..i] + a[i..] && b == b[..i] + a[i..];
    SameTail(a[..i], b[..i], a[i..]);
  }

  lemma SameTail(p: Bytes, q: Bytes, t: Bytes)
    requires |p| == |q|
    ensures ValueLE(p + t) - ValueLE(q + t) == ValueLE(p) - ValueLE(q)
  {
    ValueLEConcat(p, t);
    ValueLEConcat(q, t);
  }

  // ----- comparison, most significant byte first -----

  /** Where two strings agree above byte `i` and differ there, byte `i` decides. */
  lemma TopDecides(a: Bytes, b: Bytes, i: nat)
    requires |a| == |b| && i < |a| && a[i + 1..] == b[i + 1..] && a[i] > b[i]
    ensures ValueLE(a) > ValueLE(b)
  {
    SplitValue(a, i);
    SplitValue(b, i);
    ValueLEBound(b[..i]);
    TopArith(ValueLE(a[..i]), ValueLE(b[..i]), Pow256(i), a[i], b[i]);
  }

  lemma TopArith(va: nat, vb: nat, p: nat, x: int, y: int)
    requires vb < p && x > y
    ensures va + p * x > vb + p * y
  {
    var d: nat := x - y - 1;
    assert p * d >= 0;
    assert p * (y + 1 + d) == p * y + p + p * d;
  }

  lemma SplitValue(s: Bytes, i: nat)
    requires i < |s|
    ensures ValueLE(s) == ValueLE(s[..i]) + Pow256(i) * s[i] + Pow256(i + 1) * ValueLE(s[i + 1..])
  {
    ValueLEConcat(s[..i + 1], s[i + 1..]);
    assert s == s[..i + 1] + s[i + 1..];
    ValueLEAppend(s, i);
  }

  lemma LongerTail(x: Bytes, y: Bytes, i: nat)
    requires |x| == |y| && i < |x| && x[i] == y[i] && x[i + 1..] == y[i + 1..]
    ensures x[i..] == y[i..] && (i == 0 ==> x == y)
  {
    assert x[i..] == [x[i]] + x[i + 1..] && y[i..] == [y[i]] + y[i + 1..];
  }

  method Geq(a: array<byte>, b: array<byte>) returns (r: byte)
    requires a.Length == b.Length
    ensures r == if ValueLE(a[..]) >= ValueLE(b[..]) then 1 else 0
  {
    ghost var x, y := a[..], b[..];
    var i := a.Length - 1;
    while i >= 0
      invariant -1 <= i < a.Length && x[i + 1..] == y[i + 1..] && (i == -1 ==> x == y)
    {
      if a[i] > b[i] {
        TopDecides(x, y, i);
        return 1;
      }
      if a[i] < b[i] {
        TopDecides(y, x, i);
        return 0;
      }
      LongerTail(x, y, i);
      i := i - 1;
    }
    r := 1;
  }

  /** The comparison of transfer_check.c: it runs to the end and remembers the first difference. */
  method CheckCovers(input: Bytes, n: nat) returns (r: byte)
    requires |input| == 2 * n
    ensures r == if ValueLE(input[..n]) >= ValueLE(input[n..]) then 1 else 0
  {
    ghost var x, y := input[..n], input[n..];
    var decided, ok := false, 1;
    var j := 0;
    while j < n
      invariant 0 <= j <= n && 0 <= ok <= 1
      invariant !decided ==> ok == 1 && x[n - j..] == y[n - j..]
      invariant decided ==> ok == if ValueLE(x) >= ValueLE(y) then 1 else 0
    {
      var idx := n - 1 - j;
      var b, a := input[idx], input[n + idx];
      if !decided {
        if b > a {
          TopDecides(x, y, idx);
          ok, decided := 1, true;
        } else if b < a {
          TopDecides(y, x, idx);
          ok, decided := 0, true;
        }
      }
      j := j + 1;
    }
    r := ok;
  }

  // ----- the two directions of comparison agree -----

  /** Borrow out of the lowest `n` bytes, least significant byte first. */
  function BorrowOut(a: Bytes, b: Bytes, n: nat): (c: byte)
    requires n <= |a| && n <= |b|
    ensures c <= 1
  {
    if n == 0 then 0 else DiffByte(a[n - 1], b[n - 1], BorrowOut(a, b, n - 1)).1
  }

  /** Most significant byte first: the first difference decides. */
  predicate TopGeq(a: Bytes, b: Bytes, n: nat)
    requires n <= |a| && n <= |b|
  {
    n == 0 || a[n - 1] > b[n - 1] || (a[n - 1] == b[n - 1] && TopGeq(a, b, n - 1))
  }

  lemma {:induction false} ComparisonsAgree(a: Bytes, b: Bytes, n: nat)
    requires n <= |a| && n <= |b|
    ensures BorrowOut(a, b, n) == 0 <==> TopGeq(a, b, n)
    ensures TopGeq(a, b, n) <==> ValueLE(a[..n]) >= ValueLE(b[..n])
  {
    if n > 0 {
      ComparisonsAgree(a, b, n - 1);
      ValueLEAppend(a, n - 1);
      ValueLEAppend(b, n - 1);
      var x, y := a[..n], b[..n];
      assert x[..n - 1] == a[..n - 1] && y[..n - 1] == b[..n - 1];
      if a[n - 1] > b[n - 1] {
        TopDecides(x, y, n - 1);
      } else if a[n - 1] < b[n - 1] {
        TopDecides(y, x, n - 1);
      }
    }
  }
}
