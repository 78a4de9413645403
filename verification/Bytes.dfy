/**
 Byte strings and the fixed-width integers written in them.
 */
module Bytes {
  type byte = x: int | 0 <= x < 256
  type Bytes = seq<byte>

  const TWO64: nat := 0x1_0000_0000_0000_0000
  const TWO120: nat := 0x1_0000_0000_0000_0000_0000_0000_0000_00
  const TWO127: nat := 0x8000_0000_0000_0000_0000_0000_0000_0000
  const TWO128: nat := 0x1_0000_0000_0000_0000_0000_0000_0000_0000

  function Zeros(n: nat): (s: Bytes)
    ensures |s| == n
  {
    seq(n, _ => 0)
  }

  lemma TakeNext<T>(s: seq<T>, i: nat)
    requires i < |s|
    ensures s[..i + 1] == s[..i] + [s[i]]
  {
  }

  type u32 = x: int | 0 <= x < 0x1_0000_0000
  type u64 = x: int | 0 <= x < 0x1_0000_0000_0000_0000
  type u128 = x: int | 0 <= x < 0x1_0000_0000_0000_0000_0000_0000_0000_0000

  type Bytes16 = s: Bytes | |s| == 16 witness Zeros(16)
  type Bytes32 = s: Bytes | |s| == 32 witness Zeros(32)
  type Bytes64 = s: Bytes | |s| == 64 witness Zeros(64)

  datatype Option<+T> = None | Some(value: T)
  datatype Result<+T, +E> = Ok(value: T) | Err(error: E)

  lemma ConcatSplit(a: Bytes, b: Bytes, c: Bytes, d: Bytes)
    requires a + b == c + d && |a| == |c|
    ensures a == c && b == d
  {
    assert a == (a + b)[..|a|] && b == (a + b)[|a|..];
    assert c == (c + d)[..|c|] && d == (c + d)[|c|..];
  }

  lemma Assoc(a: Bytes, b: Bytes, c: Bytes)
    ensures (a + b) + c == a + (b + c)
  {
  }

  /** Peel equally long heads off two concatenations of three. */
  lemma ConcatSplit3(a: Bytes, b: Bytes, c: Bytes, x: Bytes, y: Bytes, z: Bytes)
    requires (a + b) + c == (x + y) + z && |a| == |x|
    ensures a == x && b + c == y + z
  {
    Assoc(a, b, c);
    Assoc(x, y, z);
    ConcatSplit(a, b + c, x, y + z);
  }

  function Pow256(n: nat): (p: nat)
    ensures p >= 1
  {
    if n == 0 then 1 else 256 * Pow256(n - 1)
  }

  lemma PowValues()
    ensures Pow256(1) == 256
    ensures Pow256(2) == 0x1_0000
    ensures Pow256(4) == 0x1_0000_0000
    ensures Pow256(8) == TWO64
    ensures Pow256(16) == TWO128
  {
    assert Pow256(4) == 0x1_0000_0000;
    PowSum(4, 4);
    PowSum(8, 8);
  }

  lemma {:induction false} PowSum(m: nat, n: nat)
    ensures Pow256(m + n) == Pow256(m) * Pow256(n)
  {
    if m > 0 {
      PowSum(m - 1, n);
      calc {
        Pow256(m + n);
        256 * Pow256(m - 1 + n);
        256 * (Pow256(m - 1) * Pow256(n));
        (256 * Pow256(m - 1)) * Pow256(n);
        Pow256(m) * Pow256(n);
      }
    }
  }

  lemma MulAssoc(a: int, b: int, c: int)
    ensures a * (b * c) == (a * b) * c
  {
  }

  // ----- little-endian -----

  /** The integer a little-endian byte string stands for. */
  function ValueLE(s: Bytes): (v: nat)
  {
    if s == [] then 0 else s[0] + 256 * ValueLE(s[1..])
  }

  /** `v` written on `n` bytes, least significant first, truncated to `n` bytes. */
  function ToLE(v: nat, n: nat): (s: Bytes)
    ensures |s| == n
  {
    if n == 0 then [] else [v % 256] + ToLE(v / 256, n - 1)
  }

  lemma {:induction false} ValueLEBound(s: Bytes)
    ensures ValueLE(s) < Pow256(|s|)
  {
    if s != [] {
      ValueLEBound(s[1..]);
    }
  }

  lemma LowByte(x: byte, v: nat)
    ensures (x + 256 * v) % 256 == x && (x + 256 * v) / 256 == v
  {
  }

  lemma {:induction false} ToLEValue(s: Bytes)
    ensures ToLE(ValueLE(s), |s|) == s
  {
    if s != [] {
      ToLEValue(s[1..]);
      LowByte(s[0], ValueLE(s[1..]));
      assert s == [s[0]] + s[1..];
    }
  }

  lemma {:induction false} ValueToLE(v: nat, n: nat)
    requires v < Pow256(n)
    ensures ValueLE(ToLE(v, n)) == v
  {
    if n > 0 {
      ValueToLE(v / 256, n - 1);
      var s := ToLE(v, n);
      assert s[1..] == ToLE(v / 256, n - 1);
    }
  }

  lemma {:induction false} ValueLEInjective(s: Bytes, t: Bytes)
    requires |s| == |t| && ValueLE(s) == ValueLE(t)
    ensures s == t
  {
    ToLEValue(s);
    ToLEValue(t);
  }

  lemma {:induction false} ValueLEConcat(s: Bytes, t: Bytes)
    ensures ValueLE(s + t) == ValueLE(s) + Pow256(|s|) * ValueLE(t)
  {
    if s == [] {
      assert s + t == t;
    } else {
      ValueLEConcat(s[1..], t);
      assert (s + t)[1..] == s[1..] + t;
      MulAssoc(256, Pow256(|s| - 1), ValueLE(t));
    }
  }

  /** One more byte at the most significant end. */
  lemma ValueLEAppend(s: Bytes, i: nat)
    requires i < |s|
    ensures ValueLE(s[..i + 1]) == ValueLE(s[..i]) + Pow256(i) * s[i]
  {
    assert s[..i + 1] == s[..i] + [s[i]];
    ValueLEConcat(s[..i], [s[i]]);
    assert ValueLE([s[i]]) == s[i];
  }

  lemma {:induction false} ValueLEZeros(n: nat)
    ensures ValueLE(Zeros(n)) == 0
  {
    if n > 0 {
      ValueLEZeros(n - 1);
      assert Zeros(n)[1..] == Zeros(n - 1);
    }
  }

  // ----- big-endian -----

  function ValueBE(s: Bytes): (v: nat)
  {
    if s == [] then 0 else 256 * ValueBE(s[..|s| - 1]) + s[|s| - 1]
  }

  function ToBE(v: nat, n: nat): (s: Bytes)
    ensures |s| == n
  {
    if n == 0 then [] else ToBE(v / 256, n - 1) + [v % 256]
  }

  lemma {:induction false} ValueToBE(v: nat, n: nat)
    requires v < Pow256(n)
    ensures ValueBE(ToBE(v, n)) == v
  {
    if n > 0 {
      ValueToBE(v / 256, n - 1);
      var s := ToBE(v, n);
      assert s[..|s| - 1] == ToBE(v / 256, n - 1);
    }
  }

  lemma {:induction false} ToBEValue(s: Bytes)
    ensures ToBE(ValueBE(s), |s|) == s && ValueBE(s) < Pow256(|s|)
  {
    if s != [] {
      ToBEValue(s[..|s| - 1]);
      LowByte(s[|s| - 1], ValueBE(s[..|s| - 1]));
      assert s == s[..|s| - 1] + [s[|s| - 1]];
    }
  }

  lemma {:induction false} ValueBEConcat(s: Bytes, t: Bytes)
    ensures ValueBE(s + t) == ValueBE(s) * Pow256(|t|) + ValueBE(t)
  {
    if t == [] {
      assert s + t == s;
    } else {
      var init := t[..|t| - 1];
      ValueBEConcat(s, init);
      assert (s + t)[..|s + t| - 1] == s + init;
      OneByteMore(ValueBE(s), Pow256(|init|), ValueBE(init), t[|t| - 1]);
    }
  }

  lemma OneByteMore(a: int, p: int, b: int, c: int)
    ensures 256 * (a * p + b) + c == a * (256 * p) + (256 * b + c)
  {
  }

  lemma ToBEInjective(v: nat, w: nat, n: nat)
    requires v < Pow256(n) && w < Pow256(n)
    requires ToBE(v, n) == ToBE(w, n)
    ensures v == w
  {
    ValueToBE(v, n);
    ValueToBE(w, n);
  }

  lemma ToLEInjective(v: nat, w: nat, n: nat)
    requires v < Pow256(n) && w < Pow256(n)
    requires ToLE(v, n) == ToLE(w, n)
    ensures v == w
  {
    ValueToLE(v, n);
    ValueToLE(w, n);
  }

  // ----- division -----

  lemma DivUnique(v: nat, d: nat, q: nat, r: nat)
    requires d > 0 && v == q * d + r && r < d
    ensures v / d == q
  {
    if v / d < q {
      MulMono(v / d + 1, q, d);
    } else if v / d > q {
      MulMono(q + 1, v / d, d);
    }
  }

  lemma MulMono(a: nat, b: nat, d: nat)
    requires a <= b
    ensures a * d <= b * d
  {
  }
}
