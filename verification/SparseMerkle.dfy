/**
 The sparse Merkle tree (crypto/src/smt.rs).  The depth is eight times the key length,
 which the program fixes at 32 bytes.

 The specification is a plain map: `Node` is the hash of the subtree below a bit path,
 defined by recursion on the depth, and says nothing about a node store.  The class
 keeps the store, in which nodes are addressed by their hash, never removed, and left
 out for empty subtrees.
 */
module SparseMerkle {
  import opened Bytes
  import opened Hashing

  type Key = Bytes
  type Contents = map<Key, Bytes>

  // ----- key bits -----

  function Pow2(n: nat): (p: nat)
    ensures p >= 1
  {
    if n == 0 then 1 else 2 * Pow2(n - 1)
  }

  /** Bit `j` of a byte, counted from the most significant one. */
  predicate ByteBit(x: byte, j: nat)
    requires j < 8
  {
    x / Pow2(7 - j) % 2 == 1
  }

  /** Bit `i` of a key, counted from the most significant bit of byte 0. */
  predicate Bit(key: Key, i: nat)
    requires i < 8 * |key|
  {
    ByteBit(key[i / 8], i % 8)
  }

  function Bits(key: Key): (b: seq<bool>)
    ensures |b| == 8 * |key|
  {
    seq(8 * |key|, i requires 0 <= i < 8 * |key| => Bit(key, i))
  }

  /** Shift the byte down and look at its lowest bit. */
  method KeyBit(key: Key, i: nat) returns (b: bool)
    requires i < 8 * |key|
    ensures b <==> ValueBE(key) / Pow2(8 * |key| - 1 - i) % 2 == 1
    ensures b == Bits(key)[i]
  {
    var shift := 7 - i % 8;
    b := key[i / 8] / Pow2(shift) % 2 == 1;
    BitOfInteger(key, i);
  }

  lemma {:induction false} Pow2Bytes(n: nat)
    ensures Pow2(8 * n) == Pow256(n)
  {
    if n > 0 {
      Pow2Bytes(n - 1);
      assert Pow2(8 * n) == 2 * Pow2(8 * n - 1) == 4 * Pow2(8 * n - 2) == 8 * Pow2(8 * n - 3) == 16 * Pow2(8 * n - 4);
      assert Pow2(8 * n - 4) == 2 * Pow2(8 * n - 5) == 4 * Pow2(8 * n - 6) == 8 * Pow2(8 * n - 7) == 16 * Pow2(8 * n - 8);
    }
  }

  lemma {:induction false} Pow2Sum(m: nat, n: nat)
    ensures Pow2(m + n) == Pow2(m) * Pow2(n)
  {
    if m > 0 {
      Pow2Sum(m - 1, n);
      MulAssoc(2, Pow2(m - 1), Pow2(n));
    }
  }

  /** Dividing by `q * p` where the low part below `p` is split off. */
  lemma DivTwice(y: nat, p: nat, q: nat, low: nat)
    requires low < p && q > 0
    ensures q * p > 0 && (y * p + low) / (q * p) == y / q
  {
    var d, r := y / q, y % q;
    assert y == d * q + r;
    MulAssoc(d, q, p);
    assert y * p == (d * q) * p + r * p;
    MulMono(r + 1, q, p);
    assert (r + 1) * p == r * p + p;
    MulMono(1, q, p);
    DivUnique(y * p + low, q * p, d, r * p + low);
  }

  lemma SevenShifts(high: nat, x: byte, s: nat)
    requires s < 8
    ensures (256 * high + x) / Pow2(s) % 2 == x / Pow2(s) % 2
  {
    Pow2Sum(s, 8 - s);
    assert Pow2(8) == 256 by { Pow2Bytes(1); }
    var q, k := Pow2(s), Pow2(7 - s);
    assert q * (2 * k) == 256;
    ShiftPart(high, x, q, k);
  }

  lemma ShiftPart(high: nat, x: nat, q: nat, k: nat)
    requires q > 0 && q * (2 * k) == 256
    ensures (256 * high + x) / q % 2 == x / q % 2
  {
    Quotient(high, x, q, 2 * k, x / q, x % q);
    TwoTimes(k, high);
    Even(k * high, x / q);
  }

  lemma Quotient(high: nat, x: nat, q: nat, m: nat, d: nat, r: nat)
    requires q * m == 256 && x == d * q + r && r < q
    ensures (256 * high + x) / q == m * high + d
  {
    SplitProduct(q, m, high, d);
    DivUnique(256 * high + x, q, m * high + d, r);
  }

  lemma TwoTimes(k: int, high: int)
    ensures 2 * k * high == 2 * (k * high)
  {
  }

  lemma SplitProduct(q: int, m: int, high: int, d: int)
    ensures (m * high + d) * q == (q * m) * high + d * q
  {
  }

  lemma Even(a: nat, d: nat)
    ensures (2 * a + d) % 2 == d % 2
  {
  }

  /** The bits of a key are those of the big-endian integer it stands for, most significant first. */
  lemma BitOfInteger(key: Key, i: nat)
    requires i < 8 * |key|
    ensures Bits(key)[i] <==> ValueBE(key) / Pow2(8 * |key| - 1 - i) % 2 == 1
  {
    hide ValueBE, Pow2, Pow256;
    var j, s := i / 8, 7 - i % 8;
    var below := |key| - 1 - j;
    SplitAtByte(key, j);
    assert 8 * |key| - 1 - i == s + 8 * below;
    BitAbove(ValueBE(key[..j]), key[j], s, below, ValueBE(key[j + 1..]));
  }

  lemma SplitAtByte(key: Key, j: nat)
    requires j < |key|
    ensures ValueBE(key) == (256 * ValueBE(key[..j]) + key[j]) * Pow256(|key| - 1 - j) + ValueBE(key[j + 1..])
    ensures ValueBE(key[j + 1..]) < Pow256(|key| - 1 - j)
  {
    hide ValueBE, Pow256;
    ValueBESnoc(key, j);
    ValueBEConcat(key[..j + 1], key[j + 1..]);
    assert key == key[..j + 1] + key[j + 1..];
    ToBEValue(key[j + 1..]);
  }

  lemma ValueBESnoc(key: Key, j: nat)
    requires j < |key|
    ensures ValueBE(key[..j + 1]) == 256 * ValueBE(key[..j]) + key[j]
  {
    assert key[..j + 1][..j] == key[..j];
  }

  /** A bit of a byte with bytes above it and `below` bytes under it. */
  lemma BitAbove(high: nat, x: byte, s: nat, below: nat, low: nat)
    requires s < 8 && low < Pow256(below)
    ensures Pow2(s + 8 * below) > 0
    ensures ((256 * high + x) * Pow256(below) + low) / Pow2(s + 8 * below) % 2 == x / Pow2(s) % 2
  {
    hide Pow2, Pow256;
    Pow2Bytes(below);
    Pow2Sum(s, 8 * below);
    DivTwice(256 * high + x, Pow256(below), Pow2(s), low);
    SevenShifts(high, x, s);
  }

  lemma ByteBits(x: byte)
    ensures ByteBit(x, 0) == (x / 128 % 2 == 1) && ByteBit(x, 1) == (x / 64 % 2 == 1)
    ensures ByteBit(x, 2) == (x / 32 % 2 == 1) && ByteBit(x, 3) == (x / 16 % 2 == 1)
    ensures ByteBit(x, 4) == (x / 8 % 2 == 1) && ByteBit(x, 5) == (x / 4 % 2 == 1)
    ensures ByteBit(x, 6) == (x / 2 % 2 == 1) && ByteBit(x, 7) == (x % 2 == 1)
  {
    assert Pow2(0) == 1 && Pow2(1) == 2 && Pow2(2) == 4 && Pow2(3) == 8;
    assert Pow2(4) == 16 && Pow2(5) == 32 && Pow2(6) == 64 && Pow2(7) == 128;
  }

  lemma ByteFromBits(x: byte)
    ensures x == 128 * (x / 128 % 2) + 64 * (x / 64 % 2) + 32 * (x / 32 % 2) + 16 * (x / 16 % 2)
               + 8 * (x / 8 % 2) + 4 * (x / 4 % 2) + 2 * (x / 2 % 2) + x % 2
  {
    assert x / 4 == x / 2 / 2;
    assert x / 8 == x / 4 / 2;
    assert x / 16 == x / 8 / 2;
    assert x / 32 == x / 16 / 2;
    assert x / 64 == x / 32 / 2;
    assert x / 128 == x / 64 / 2;
  }

  lemma SameByte(x: byte, y: byte)
    requires (x / 128 % 2 == 1) == (y / 128 % 2 == 1) && (x / 64 % 2 == 1) == (y / 64 % 2 == 1)
    requires (x / 32 % 2 == 1) == (y / 32 % 2 == 1) && (x / 16 % 2 == 1) == (y / 16 % 2 == 1)
    requires (x / 8 % 2 == 1) == (y / 8 % 2 == 1) && (x / 4 % 2 == 1) == (y / 4 % 2 == 1)
    requires (x / 2 % 2 == 1) == (y / 2 % 2 == 1) && (x % 2 == 1) == (y % 2 == 1)
    ensures x == y
  {
    assert x / 128 % 2 == y / 128 % 2 && x / 64 % 2 == y / 64 % 2;
    assert x / 32 % 2 == y / 32 % 2 && x / 16 % 2 == y / 16 % 2;
    assert x / 8 % 2 == y / 8 % 2 && x / 4 % 2 == y / 4 % 2;
    assert x / 2 % 2 == y / 2 % 2 && x % 2 == y % 2;
    ByteFromBits(x);
    ByteFromBits(y);
  }

  lemma ByteBitsInjective(x: byte, y: byte)
    requires forall j :: 0 <= j < 8 ==> ByteBit(x, j) == ByteBit(y, j)
    ensures x == y
  {
    ByteBits(x);
    ByteBits(y);
    SameByte(x, y);
  }

  /** Keys of the same length with the same bits are the same key. */
  lemma BitsInjective(a: Key, b: Key)
    requires |a| == |b| && Bits(a) == Bits(b)
    ensures a == b
  {
    forall i | 0 <= i < |a|
      ensures a[i] == b[i]
    {
      forall j | 0 <= j < 8
        ensures ByteBit(a[i], j) == ByteBit(b[i], j)
      {
        var k := 8 * i + j;
        assert k / 8 == i && k % 8 == j;
        assert Bits(a)[k] == Bit(a, k) && Bits(b)[k] == Bit(b, k);
      }
      ByteBitsInjective(a[i], b[i]);
    }
  }

  // ----- the map a tree stands for, and its Merkle root -----

  /** Keys have the tree's length, and no stored value is empty. */
  predicate WellFormed(m: Contents, keyBytes: nat) {
    forall k :: k in m ==> |k| == keyBytes && m[k] != []
  }

  /** Putting an empty value is removing the key. */
  function Updated(m: Contents, key: Key, value: Bytes): Contents {
    if value == [] then m - {key} else m[key := value]
  }

  function Lookup(m: Contents, key: Key): Bytes {
    if key in m then m[key] else []
  }

  function LeafInput(h: HashFn, key: Key, value: Bytes): Bytes {
    [0] + key + h(value)
  }

  function LeafHash(h: HashFn, key: Key, value: Bytes): Hash {
    if value == [] then h([]) else h(LeafInput(h, key, value))
  }

  /** The string hashed for an inner node. */
  function Join(left: Bytes, right: Bytes): Bytes {
    left + right
  }

  /** Hash of the empty subtree whose root is at depth `d`. */
  function Default(h: HashFn, depth: nat, d: nat): Hash
    requires d <= depth
    decreases depth - d
  {
    if d == depth then h([]) else h(Join(Default(h, depth, d + 1), Default(h, depth, d + 1)))
  }

  /** The keys of `m` that lie below `path`. */
  ghost function Under(m: Contents, path: seq<bool>): set<Key> {
    set k | k in m && path <= Bits(k)
  }

  ghost function Pick(s: set<Key>): (k: Key)
    requires s != {}
    ensures k in s
  {
    var k :| k in s; k
  }

  /** Hash of the subtree of `m` below `path`. */
  ghost function Node(h: HashFn, depth: nat, m: Contents, path: seq<bool>): Hash
    requires |path| <= depth
    decreases depth - |path|
  {
    if |path| == depth then
      if Under(m, path) == {} then h([]) else LeafHash(h, Pick(Under(m, path)), m[Pick(Under(m, path))])
    else h(Join(Node(h, depth, m, path + [false]), Node(h, depth, m, path + [true])))
  }

  ghost function NodeInput(h: HashFn, depth: nat, m: Contents, path: seq<bool>): Bytes
    requires |path| < depth
  {
    Join(Node(h, depth, m, path + [false]), Node(h, depth, m, path + [true]))
  }

  ghost function MerkleRoot(h: HashFn, keyBytes: nat, m: Contents): Hash {
    Node(h, 8 * keyBytes, m, [])
  }

  lemma PrefixTransitive(p: seq<bool>, q: seq<bool>, r: seq<bool>)
    requires p <= q && q <= r
    ensures p <= r
  {
    assert p == q[..|p|] == r[..|p|];
  }

  lemma UnderShrinks(m: Contents, p: seq<bool>, q: seq<bool>)
    requires p <= q
    ensures Under(m, q) <= Under(m, p)
  {
    forall k | k in Under(m, q)
      ensures k in Under(m, p)
    {
      PrefixTransitive(p, q, Bits(k));
    }
  }

  lemma {:induction false} EmptyNode(h: HashFn, depth: nat, m: Contents, path: seq<bool>)
    requires |path| <= depth && Under(m, path) == {}
    ensures Node(h, depth, m, path) == Default(h, depth, |path|)
    decreases depth - |path|
  {
    if |path| < depth {
      UnderShrinks(m, path, path + [false]);
      UnderShrinks(m, path, path + [true]);
      EmptyNode(h, depth, m, path + [false]);
      EmptyNode(h, depth, m, path + [true]);
    }
  }

  /** The leaf at the end of a key's own path carries that key's value. */
  lemma LeafNode(h: HashFn, keyBytes: nat, m: Contents, key: Key)
    requires WellFormed(m, keyBytes) && |key| == keyBytes
    ensures Node(h, 8 * keyBytes, m, Bits(key)) == LeafHash(h, key, Lookup(m, key))
  {
    var path := Bits(key);
    if Under(m, path) != {} {
      var k := Pick(Under(m, path));
      assert Bits(k) == path;
      BitsInjective(k, key);
    } else {
      assert key in m ==> key in Under(m, path);
    }
  }

  /** A put changes no subtree that lies off the key's path. */
  lemma {:induction false} NodeFrame(h: HashFn, depth: nat, m: Contents, key: Key, value: Bytes, path: seq<bool>)
    requires |path| <= depth && !(path <= Bits(key))
    ensures Under(m, path) == Under(Updated(m, key, value), path)
    ensures Node(h, depth, m, path) == Node(h, depth, Updated(m, key, value), path)
    decreases depth - |path|
  {
    var m' := Updated(m, key, value);
    if |path| < depth {
      ChildFrame(h, depth, m, key, value, path, false);
      ChildFrame(h, depth, m, key, value, path, true);
    } 
    assert Under(m, path) == Under(m', path);
  }

  lemma {:induction false} ChildFrame(h: HashFn, depth: nat, m: Contents, key: Key, value: Bytes, path: seq<bool>, b: bool)
    requires |path| < depth && !(path <= Bits(key))
    ensures Node(h, depth, m, path + [b]) == Node(h, depth, Updated(m, key, value), path + [b])
    decreases depth - |path|, 0
  {
    if path + [b] <= Bits(key) {
      PrefixTransitive(path, path + [b], Bits(key));
    }
    NodeFrame(h, depth, m, key, value, path + [b]);
  }

  // ----- proofs -----

  datatype MerkleProof = MerkleProof(siblings: seq<Hash>, value: Bytes)

  function Branch(bit: bool, sibling: Hash, current: Hash): Bytes {
    if bit then Join(sibling, current) else Join(current, sibling)
  }

  /** The hash reached at depth `i` when climbing from a leaf hash through the siblings. */
  function Climb(h: HashFn, bits: seq<bool>, siblings: seq<Hash>, leaf: Hash, i: nat): Hash
    requires |siblings| == |bits| && i <= |bits|
    decreases |bits| - i
  {
    if i == |bits| then leaf
    else h(Branch(bits[i], siblings[i], Climb(h, bits, siblings, leaf, i + 1)))
  }

  predicate Verifies(h: HashFn, root: Hash, key: Key, proof: MerkleProof) {
    && |proof.siblings| == 8 * |key|
    && Climb(h, Bits(key), proof.siblings, LeafHash(h, key, proof.value), 0) == root
  }

  function Flip(bits: seq<bool>, i: nat): seq<bool>
    requires i < |bits|
  {
    bits[..i] + [!bits[i]]
  }

  /** The subtrees that branch off the path `bits`. */
  ghost function HonestSiblings(h: HashFn, m: Contents, bits: seq<bool>): (s: seq<Hash>)
    ensures |s| == |bits|
  {
    seq(|bits|, i requires 0 <= i < |bits| => Node(h, |bits|, m, Flip(bits, i)))
  }

  ghost function HonestProof(h: HashFn, m: Contents, key: Key): MerkleProof {
    MerkleProof(HonestSiblings(h, m, Bits(key)), Lookup(m, key))
  }

  lemma BranchIsNodeInput(h: HashFn, m: Contents, bits: seq<bool>, i: nat)
    requires i < |bits|
    ensures Branch(bits[i], HonestSiblings(h, m, bits)[i], Node(h, |bits|, m, bits[..i + 1]))
         == NodeInput(h, |bits|, m, bits[..i])
  {
    assert bits[..i + 1] == bits[..i] + [bits[i]];
  }

  /** Climbing through the honest siblings visits the nodes of the path. */
  lemma {:induction false} HonestClimb(h: HashFn, m: Contents, bits: seq<bool>, i: nat)
    requires i <= |bits|
    ensures Climb(h, bits, HonestSiblings(h, m, bits), Node(h, |bits|, m, bits), i) == Node(h, |bits|, m, bits[..i])
    decreases |bits| - i
  {
    if i == |bits| {
      assert bits[..i] == bits;
    } else {
      HonestClimb(h, m, bits, i + 1);
      BranchIsNodeInput(h, m, bits, i);
    }
  }

  /** The siblings on a key's path do not depend on the key's own value. */
  lemma SiblingsFrame(h: HashFn, m: Contents, key: Key, value: Bytes)
    ensures HonestSiblings(h, m, Bits(key)) == HonestSiblings(h, Updated(m, key, value), Bits(key))
  {
    var bits := Bits(key);
    forall i | 0 <= i < |bits|
      ensures HonestSiblings(h, m, bits)[i] == HonestSiblings(h, Updated(m, key, value), bits)[i]
    {
      assert Flip(bits, i)[i] != bits[i];
      NodeFrame(h, |bits|, m, key, value, Flip(bits, i));
    }
  }

  /** Every key of every map has a proof that verifies against the map's root. */
  lemma HonestProofVerifies(h: HashFn, keyBytes: nat, m: Contents, key: Key)
    requires WellFormed(m, keyBytes) && |key| == keyBytes
    ensures Verifies(h, MerkleRoot(h, keyBytes, m), key, HonestProof(h, m, key))
  {
    LeafNode(h, keyBytes, m, key);
    HonestClimb(h, m, Bits(key), 0);
    assert Bits(key)[..0] == [];
  }

  // ----- binding -----

  /** The two strings at which two leaves with the same hash and different values collide. */
  function LeafCollision(h: HashFn, key: Key, a: Bytes, b: Bytes): (Bytes, Bytes) {
    if a == [] then ([], LeafInput(h, key, b))
    else if b == [] then (LeafInput(h, key, a), [])
    else if h(a) == h(b) then (a, b)
    else (LeafInput(h, key, a), LeafInput(h, key, b))
  }

  /** Walk down both climbs from depth `i` to the first node at which their inputs differ. */
  function ClimbCollision(h: HashFn, key: Key, a: MerkleProof, b: MerkleProof, i: nat): (Bytes, Bytes)
    requires |a.siblings| == |b.siblings| == 8 * |key| && i <= 8 * |key|
    decreases 8 * |key| - i
  {
    if i == 8 * |key| then LeafCollision(h, key, a.value, b.value)
    else
      var bits := Bits(key);
      var x := Branch(bits[i], a.siblings[i], Climb(h, bits, a.siblings, LeafHash(h, key, a.value), i + 1));
      var y := Branch(bits[i], b.siblings[i], Climb(h, bits, b.siblings, LeafHash(h, key, b.value), i + 1));
      if x != y then (x, y) else ClimbCollision(h, key, a, b, i + 1)
  }

  /** A leaf commits to its key as well as its value: equal leaf hashes mean equal leaves, or a pair of strings that collides. */
  lemma LeafCommits(h: HashFn, key: Key, value: Bytes, key': Key, value': Bytes)
    requires |key| == |key'| && LeafHash(h, key, value) == LeafHash(h, key', value') && (value != [] || value' != [])
    ensures || (key == key' && value == value') || Collision(h, value, value')
            || Collision(h, if value == [] then [] else LeafInput(h, key, value), if value' == [] then [] else LeafInput(h, key', value'))
  {
    var x, y := LeafInput(h, key, value), LeafInput(h, key', value');
    assert x[0] == y[0] == 0 && x[1..1 + |key|] == key && y[1..1 + |key|] == key';
    assert x[1 + |key|..] == h(value) && y[1 + |key|..] == h(value');
  }

  /** The string behind a node is the hash of the half whose next bit is 0, then that of the half whose next bit is 1; it is no leaf's string. */
  lemma NodeHalves(h: HashFn, depth: nat, m: Contents, path: seq<bool>, key: Key, value: Bytes)
    requires |path| < depth && |key| == 32
    ensures var s := NodeInput(h, depth, m, path);
            && |s| == 64 && s[..32] == Node(h, depth, m, path + [false]) && s[32..] == Node(h, depth, m, path + [true])
            && s != LeafInput(h, key, value)
  {
    assert |LeafInput(h, key, value)| == 65;
  }

  lemma {:induction false} ClimbBinding(h: HashFn, key: Key, a: MerkleProof, b: MerkleProof, i: nat)
    requires |a.siblings| == |b.siblings| == 8 * |key| && i <= 8 * |key|
    requires Climb(h, Bits(key), a.siblings, LeafHash(h, key, a.value), i)
          == Climb(h, Bits(key), b.siblings, LeafHash(h, key, b.value), i)
    requires a.value != b.value
    ensures var c := ClimbCollision(h, key, a, b, i); Collision(h, c.0, c.1)
    decreases 8 * |key| - i
  {
    if i == 8 * |key| {
      var x, y := LeafInput(h, key, a.value), LeafInput(h, key, b.value);
      assert |x| == |y| == 33 + |key|;
      if h(a.value) != h(b.value) && x == y {
        ConcatSplit([0] + key, h(a.value), [0] + key, h(b.value));
      }
    } else {
      var bits := Bits(key);
      var p := Climb(h, bits, a.siblings, LeafHash(h, key, a.value), i + 1);
      var q := Climb(h, bits, b.siblings, LeafHash(h, key, b.value), i + 1);
      var x, y := Branch(bits[i], a.siblings[i], p), Branch(bits[i], b.siblings[i], q);
      if x == y {
        if bits[i] {
          ConcatSplit(a.siblings[i], p, b.siblings[i], q);
        } else {
          ConcatSplit(p, a.siblings[i], q, b.siblings[i]);
        }
        ClimbBinding(h, key, a, b, i + 1);
      }
    }
  }

  /** Two proofs of one key under one root carry the same value, or collide at a computed pair. */
  lemma ProofBinding(h: HashFn, root: Hash, key: Key, a: MerkleProof, b: MerkleProof)
    requires Verifies(h, root, key, a) && Verifies(h, root, key, b)
    ensures a.value == b.value || var c := ClimbCollision(h, key, a, b, 0); Collision(h, c.0, c.1)
  {
    if a.value != b.value {
      ClimbBinding(h, key, a, b, 0);
    }
  }

  /** A proof that verifies against a map's root carries the map's value (empty when absent). */
  lemma ProofSound(h: HashFn, keyBytes: nat, m: Contents, key: Key, p: MerkleProof)
    requires WellFormed(m, keyBytes) && |key| == keyBytes
    requires Verifies(h, MerkleRoot(h, keyBytes, m), key, p)
    ensures p.value == Lookup(m, key)
         || var c := ClimbCollision(h, key, p, HonestProof(h, m, key), 0); Collision(h, c.0, c.1)
  {
    HonestProofVerifies(h, keyBytes, m, key);
    ProofBinding(h, MerkleRoot(h, keyBytes, m), key, p, HonestProof(h, m, key));
  }

  /** Two different maps with one root collide, at a pair read off the proofs of a key on which they differ. */
  lemma RootBinding(h: HashFn, keyBytes: nat, m: Contents, m': Contents) returns (key: Key)
    requires WellFormed(m, keyBytes) && WellFormed(m', keyBytes)
    requires m != m' && MerkleRoot(h, keyBytes, m) == MerkleRoot(h, keyBytes, m')
    ensures |key| == keyBytes && Lookup(m, key) != Lookup(m', key)
    ensures var c := ClimbCollision(h, key, HonestProof(h, m, key), HonestProof(h, m', key), 0);
            Collision(h, c.0, c.1)
  {
    if m.Keys != m'.Keys {
      key :| key in m.Keys + m'.Keys && (key !in m || key !in m');
    } else {
      key :| key in m && m[key] != m'[key];
    }
    HonestProofVerifies(h, keyBytes, m, key);
    HonestProofVerifies(h, keyBytes, m', key);
    ProofBinding(h, MerkleRoot(h, keyBytes, m), key, HonestProof(h, m, key), HonestProof(h, m', key));
  }

  // ----- the node store -----

  datatype InternalNode = InternalNode(left: Hash, right: Hash)
  type Store = map<Hash, InternalNode>

  /** Every entry is filed under the hash of its two children, and that string was hashed. */
  ghost predicate Addressed(h: HashFn, nodes: Store, hashed: set<Bytes>) {
    forall x :: x in nodes ==>
      h(Join(nodes[x].left, nodes[x].right)) == x && Join(nodes[x].left, nodes[x].right) in hashed
  }

  ghost predicate Stored(h: HashFn, depth: nat, m: Contents, nodes: Store, path: seq<bool>)
    requires |path| <= depth
  {
    Under(m, path) == {} || Node(h, depth, m, path) in nodes
  }

  /** The store has every node of `m` with something below it. */
  ghost predicate Complete(h: HashFn, depth: nat, m: Contents, nodes: Store) {
    forall path: seq<bool> | |path| < depth :: Stored(h, depth, m, nodes, path)
  }

  /** The string behind every node of `m` was hashed. */
  ghost predicate Covered(h: HashFn, depth: nat, m: Contents, hashed: set<Bytes>) {
    forall path: seq<bool> | |path| < depth :: NodeInput(h, depth, m, path) in hashed
  }

  /** The strings behind the leaves of `m` were hashed. */
  ghost predicate LeavesCovered(h: HashFn, m: Contents, hashed: set<Bytes>) {
    [] in hashed && forall k :: k in m ==> m[k] in hashed && LeafInput(h, k, m[k]) in hashed
  }

  /** What the store and the root owe to the map, while no two strings hashed so far collide. */
  ghost predicate Agrees(h: HashFn, keyBytes: nat, m: Contents, root: Hash, nodes: Store, hashed: set<Bytes>) {
    && root == MerkleRoot(h, keyBytes, m)
    && Complete(h, 8 * keyBytes, m, nodes)
    && Covered(h, 8 * keyBytes, m, hashed)
    && LeavesCovered(h, m, hashed)
  }

  /** An entry found under the hash of a node of `m` holds that node's children. */
  lemma StoredChildren(h: HashFn, depth: nat, m: Contents, nodes: Store, hashed: set<Bytes>, path: seq<bool>)
    requires |path| < depth && Addressed(h, nodes, hashed) && Covered(h, depth, m, hashed)
    requires NoCollision(h, hashed) && Node(h, depth, m, path) in nodes
    ensures nodes[Node(h, depth, m, path)]
         == InternalNode(Node(h, depth, m, path + [false]), Node(h, depth, m, path + [true]))
  {
    var n := nodes[Node(h, depth, m, path)];
    assert !Collision(h, Join(n.left, n.right), NodeInput(h, depth, m, path));
    ConcatSplit(n.left, n.right, Node(h, depth, m, path + [false]), Node(h, depth, m, path + [true]));
  }

  /** Descending one level from an entry that was found. */
  lemma StepDown(h: HashFn, m: Contents, n: InternalNode, bits: seq<bool>, d: nat)
    requires d < |bits|
    requires n == InternalNode(Node(h, |bits|, m, bits[..d] + [false]), Node(h, |bits|, m, bits[..d] + [true]))
    ensures var sibling, next := HonestSiblings(h, m, bits)[d], Node(h, |bits|, m, bits[..d + 1]);
            n == if bits[d] then InternalNode(sibling, next) else InternalNode(next, sibling)
  {
    assert bits[..d + 1] == bits[..d] + [bits[d]];
  }

  /** Below an empty subtree all siblings are defaults. */
  lemma EmptySiblings(h: HashFn, m: Contents, bits: seq<bool>, d: nat)
    requires d <= |bits| && Under(m, bits[..d]) == {}
    ensures forall i :: d <= i < |bits| ==> HonestSiblings(h, m, bits)[i] == Default(h, |bits|, i + 1)
  {
    hide Node, Default, Under;
    forall i | d <= i < |bits|
      ensures HonestSiblings(h, m, bits)[i] == Default(h, |bits|, i + 1)
    {
      assert bits[..d] <= Flip(bits, i);
      UnderShrinks(m, bits[..d], Flip(bits, i));
      EmptyNode(h, |bits|, m, Flip(bits, i));
    }
  }

  lemma DefaultTail(h: HashFn, m: Contents, bits: seq<bool>, defaults: seq<Hash>, d: nat)
    requires d <= |bits| && Under(m, bits[..d]) == {} && |defaults| == |bits| + 1
    requires forall i :: 0 <= i < |defaults| ==> defaults[i] == Default(h, |bits|, i)
    ensures HonestSiblings(h, m, bits) == HonestSiblings(h, m, bits)[..d] + defaults[d + 1..]
  {
    var honest := HonestSiblings(h, m, bits);
    EmptySiblings(h, m, bits, d);
    forall i | d <= i < |bits|
      ensures honest[i] == defaults[d + 1..][i - d]
    {
      assert defaults[i + 1] == Default(h, |bits|, i + 1);
    }
  }

  /** The nodes and strings a put adds: those of the climb from the new leaf. */
  ghost predicate Climbed(h: HashFn, bits: seq<bool>, siblings: seq<Hash>, leaf: Hash, i: nat, nodes: Store, hashed: set<Bytes>)
    requires |siblings| == |bits| && i <= |bits|
  {
    forall j | i <= j < |bits| ::
      && Climb(h, bits, siblings, leaf, j) in nodes
      && Branch(bits[j], siblings[j], Climb(h, bits, siblings, leaf, j + 1)) in hashed
  }

  lemma ClimbedUp(h: HashFn, bits: seq<bool>, siblings: seq<Hash>, leaf: Hash, i: nat,
                  nodes: Store, hashed: set<Bytes>, nodes': Store, hashed': set<Bytes>)
    requires |siblings| == |bits| && i < |bits| && Climbed(h, bits, siblings, leaf, i + 1, nodes, hashed)
    requires nodes.Keys <= nodes'.Keys && hashed <= hashed'
    requires Climb(h, bits, siblings, leaf, i) in nodes'
    requires Branch(bits[i], siblings[i], Climb(h, bits, siblings, leaf, i + 1)) in hashed'
    ensures Climbed(h, bits, siblings, leaf, i, nodes', hashed')
  {
  }

  lemma PutOnPath(h: HashFn, m: Contents, bits: seq<bool>, nodes: Store, hashed: set<Bytes>, i: nat)
    requires i < |bits| && Climbed(h, bits, HonestSiblings(h, m, bits), Node(h, |bits|, m, bits), 0, nodes, hashed)
    ensures Node(h, |bits|, m, bits[..i]) in nodes
    ensures NodeInput(h, |bits|, m, bits[..i]) in hashed
  {
    HonestClimb(h, m, bits, i);
    HonestClimb(h, m, bits, i + 1);
    BranchIsNodeInput(h, m, bits, i);
  }

  lemma PutOffPath(h: HashFn, depth: nat, m: Contents, key: Key, value: Bytes, path: seq<bool>)
    requires |path| < depth && !(path <= Bits(key))
    ensures Under(m, path) == Under(Updated(m, key, value), path)
    ensures Node(h, depth, m, path) == Node(h, depth, Updated(m, key, value), path)
    ensures NodeInput(h, depth, m, path) == NodeInput(h, depth, Updated(m, key, value), path)
  {
    NodeFrame(h, depth, m, key, value, path);
    ChildFrame(h, depth, m, key, value, path, false);
    ChildFrame(h, depth, m, key, value, path, true);
  }

  /** What a put adds to the store and to the hashed strings is what the new map needs. */
  lemma PutAgrees(h: HashFn, keyBytes: nat, m: Contents, key: Key, value: Bytes, root: Hash,
                  nodes: Store, hashed: set<Bytes>, nodes': Store, hashed': set<Bytes>)
    requires WellFormed(m, keyBytes) && |key| == keyBytes
    requires Agrees(h, keyBytes, m, root, nodes, hashed)
    requires nodes.Keys <= nodes'.Keys && hashed <= hashed'
    requires Climbed(h, Bits(key), HonestSiblings(h, m, Bits(key)), LeafHash(h, key, value), 0, nodes', hashed')
    requires value != [] ==> value in hashed' && LeafInput(h, key, value) in hashed'
    ensures Agrees(h, keyBytes, Updated(m, key, value),
                   Climb(h, Bits(key), HonestSiblings(h, m, Bits(key)), LeafHash(h, key, value), 0), nodes', hashed')
  {
    var m', bits, depth := Updated(m, key, value), Bits(key), 8 * keyBytes;
    hide Climbed, Complete, Covered, Climb, HonestSiblings, LeafHash, LeafInput, Bits, Node;
    SiblingsFrame(h, m, key, value);
    LeafNode(h, keyBytes, m', key);
    PutRoot(h, m', bits);
    PutPaths(h, m, key, value, nodes, hashed, nodes', hashed');
  }

  lemma PutPaths(h: HashFn, m: Contents, key: Key, value: Bytes, nodes: Store, hashed: set<Bytes>,
                 nodes': Store, hashed': set<Bytes>)
    requires nodes.Keys <= nodes'.Keys && hashed <= hashed'
    requires Complete(h, 8 * |key|, m, nodes) && Covered(h, 8 * |key|, m, hashed)
    requires var m', bits := Updated(m, key, value), Bits(key);
             Climbed(h, bits, HonestSiblings(h, m', bits), Node(h, |bits|, m', bits), 0, nodes', hashed')
    ensures Complete(h, 8 * |key|, Updated(m, key, value), nodes')
    ensures Covered(h, 8 * |key|, Updated(m, key, value), hashed')
  {
    forall path: seq<bool> | |path| < 8 * |key|
      ensures Stored(h, 8 * |key|, Updated(m, key, value), nodes', path)
      ensures NodeInput(h, 8 * |key|, Updated(m, key, value), path) in hashed'
    {
      PutPath(h, m, key, value, nodes, hashed, nodes', hashed', path);
    }
  }

  lemma PutRoot(h: HashFn, m: Contents, bits: seq<bool>)
    ensures Climb(h, bits, HonestSiblings(h, m, bits), Node(h, |bits|, m, bits), 0) == Node(h, |bits|, m, [])
  {
    HonestClimb(h, m, bits, 0);
    assert bits[..0] == [];
  }

  lemma PutPath(h: HashFn, m: Contents, key: Key, value: Bytes, nodes: Store, hashed: set<Bytes>,
                nodes': Store, hashed': set<Bytes>, path: seq<bool>)
    requires |path| < 8 * |key| && nodes.Keys <= nodes'.Keys && hashed <= hashed'
    requires Complete(h, 8 * |key|, m, nodes) && Covered(h, 8 * |key|, m, hashed)
    requires var m', bits := Updated(m, key, value), Bits(key);
             Climbed(h, bits, HonestSiblings(h, m', bits), Node(h, |bits|, m', bits), 0, nodes', hashed')
    ensures Stored(h, 8 * |key|, Updated(m, key, value), nodes', path)
    ensures NodeInput(h, 8 * |key|, Updated(m, key, value), path) in hashed'
  {
    var m', bits, depth := Updated(m, key, value), Bits(key), 8 * |key|;
    if path <= bits {
      assert path == bits[..|path|];
      PutOnPath(h, m', bits, nodes', hashed', |path|);
    } else {
      PutOffPath(h, depth, m, key, value, path);
      assert Stored(h, depth, m, nodes, path);
    }
  }

  /** The default hash of every depth, computed upwards from the empty leaf. */
  method DefaultHashes(h: HashFn, depth: nat) returns (d: seq<Hash>, ghost hashed: set<Bytes>)
    ensures |d| == depth + 1 && forall j :: 0 <= j <= depth ==> d[j] == Default(h, depth, j)
    ensures [] in hashed && forall j :: 0 < j <= depth ==> Join(d[j], d[j]) in hashed
  {
    d := seq(depth + 1, _ => h([]));
    hashed := {[]};
    var i := depth;
    while i > 0
      invariant 0 <= i <= depth && |d| == depth + 1
      invariant forall j :: i <= j <= depth ==> d[j] == Default(h, depth, j)
      invariant [] in hashed && forall j :: i < j <= depth ==> Join(d[j], d[j]) in hashed
    {
      i := i - 1;
      d := d[i := h(Join(d[i + 1], d[i + 1]))];
      hashed := hashed + {Join(d[i + 1], d[i + 1])};
    }
  }

  /** A new tree is in order. */
  lemma NewAgrees(h: HashFn, keyBytes: nat, d: seq<Hash>, hashed: set<Bytes>)
    requires |d| == 8 * keyBytes + 1 && forall j :: 0 <= j < |d| ==> d[j] == Default(h, 8 * keyBytes, j)
    requires [] in hashed && forall j :: 0 < j < |d| ==> Join(d[j], d[j]) in hashed
    ensures Agrees(h, keyBytes, map[], d[0], map[], hashed)
  {
    var depth := 8 * keyBytes;
    EmptyNode(h, depth, map[], []);
    forall path: seq<bool> | |path| < depth
      ensures NodeInput(h, depth, map[], path) in hashed
    {
      EmptyNode(h, depth, map[], path + [false]);
      EmptyNode(h, depth, map[], path + [true]);
      assert Join(d[|path| + 1], d[|path| + 1]) in hashed;
    }
  }

  /** At depth `d`, `current` is the node of the path and the siblings above it have been read. */
  ghost predicate OnTrack(h: HashFn, m: Contents, bits: seq<bool>, d: nat, current: Hash, siblings: seq<Hash>)
    requires d <= |bits|
  {
    current == Node(h, |bits|, m, bits[..d]) && siblings == HonestSiblings(h, m, bits)[..d]
  }

  lemma Advance(h: HashFn, m: Contents, nodes: Store, hashed: set<Bytes>, bits: seq<bool>, d: nat, current: Hash, siblings: seq<Hash>)
    requires d < |bits| && OnTrack(h, m, bits, d, current, siblings) && current in nodes
    requires NoCollision(h, hashed) && Addressed(h, nodes, hashed) && Covered(h, |bits|, m, hashed)
    ensures var n := nodes[current];
            if bits[d] then OnTrack(h, m, bits, d + 1, n.right, siblings + [n.left])
            else OnTrack(h, m, bits, d + 1, n.left, siblings + [n.right])
  {
    StoredChildren(h, |bits|, m, nodes, hashed, bits[..d]);
    StepDown(h, m, nodes[current], bits, d);
    TakeNext(HonestSiblings(h, m, bits), d);
  }

  lemma Finish(h: HashFn, m: Contents, nodes: Store, bits: seq<bool>, defaults: seq<Hash>, d: nat, current: Hash, siblings: seq<Hash>)
    requires d < |bits| && OnTrack(h, m, bits, d, current, siblings) && current !in nodes
    requires Complete(h, |bits|, m, nodes) && |defaults| == |bits| + 1
    requires forall i :: 0 <= i < |defaults| ==> defaults[i] == Default(h, |bits|, i)
    ensures siblings + defaults[d + 1..] == HonestSiblings(h, m, bits)
  {
    assert Stored(h, |bits|, m, nodes, bits[..d]);
    DefaultTail(h, m, bits, defaults, d);
  }

  /** The siblings from depth `d` on, as read off the store; defaults from the first absent node on. */
  function Walk(nodes: Store, bits: seq<bool>, defaults: seq<Hash>, d: nat, current: Hash): (s: seq<Hash>)
    requires |defaults| == |bits| + 1 && d <= |bits|
    ensures |s| == |bits| - d
    decreases |bits| - d
  {
    if d == |bits| then []
    else if current !in nodes then defaults[d + 1..]
    else if bits[d] then [nodes[current].left] + Walk(nodes, bits, defaults, d + 1, nodes[current].right)
    else [nodes[current].right] + Walk(nodes, bits, defaults, d + 1, nodes[current].left)
  }

  /** Reading on from a point on track completes the honest siblings. */
  lemma {:induction false} WalkIsHonest(h: HashFn, m: Contents, nodes: Store, hashed: set<Bytes>, bits: seq<bool>,
                                        defaults: seq<Hash>, d: nat, current: Hash, siblings: seq<Hash>)
    requires d <= |bits| && OnTrack(h, m, bits, d, current, siblings) && |defaults| == |bits| + 1
    requires forall i :: 0 <= i < |defaults| ==> defaults[i] == Default(h, |bits|, i)
    requires NoCollision(h, hashed) && Addressed(h, nodes, hashed) && Covered(h, |bits|, m, hashed) && Complete(h, |bits|, m, nodes)
    ensures siblings + Walk(nodes, bits, defaults, d, current) == HonestSiblings(h, m, bits)
    decreases |bits| - d
  {
    if d == |bits| {
      assert HonestSiblings(h, m, bits)[..d] == HonestSiblings(h, m, bits);
    } else if current !in nodes {
      Finish(h, m, nodes, bits, defaults, d, current, siblings);
    } else {
      Advance(h, m, nodes, hashed, bits, d, current, siblings);
      WalkOn(nodes, bits, defaults, d, current, siblings);
      var n := nodes[current];
      if bits[d] {
        WalkIsHonest(h, m, nodes, hashed, bits, defaults, d + 1, n.right, siblings + [n.left]);
      } else {
        WalkIsHonest(h, m, nodes, hashed, bits, defaults, d + 1, n.left, siblings + [n.right]);
      }
    }
  }

  /** One node further down. */
  lemma WalkOn(nodes: Store, bits: seq<bool>, defaults: seq<Hash>, d: nat, current: Hash, siblings: seq<Hash>)
    requires |defaults| == |bits| + 1 && d < |bits| && current in nodes
    ensures var n := nodes[current];
            siblings + Walk(nodes, bits, defaults, d, current)
              == if bits[d] then siblings + [n.left] + Walk(nodes, bits, defaults, d + 1, n.right)
                 else siblings + [n.right] + Walk(nodes, bits, defaults, d + 1, n.left)
  {
    var n := nodes[current];
    if bits[d] {
      Regroup(siblings, n.left, Walk(nodes, bits, defaults, d + 1, n.right));
    } else {
      Regroup(siblings, n.right, Walk(nodes, bits, defaults, d + 1, n.left));
    }
  }

  lemma Regroup(a: seq<Hash>, x: Hash, b: seq<Hash>)
    ensures a + ([x] + b) == a + [x] + b
  {
  }

  /** Read the siblings of a path off the store, falling back to defaults at the first absent node. */
  method ReadPath(key: Key, root: Hash, nodes: Store, defaults: seq<Hash>) returns (siblings: seq<Hash>)
    requires |defaults| == 8 * |key| + 1
    ensures siblings == Walk(nodes, Bits(key), defaults, 0, root)
  {
    hide ValueBE, Pow2, Bits;
    siblings := [];
    var current := root;
    for d := 0 to 8 * |key|
      invariant siblings + Walk(nodes, Bits(key), defaults, d, current) == Walk(nodes, Bits(key), defaults, 0, root)
    {
      if current !in nodes {
        siblings := siblings + defaults[d + 1..];
        return;
      }
      var node := nodes[current];
      WalkOn(nodes, Bits(key), defaults, d, current, siblings);
      var right := KeyBit(key, d);
      if right {
        siblings, current := siblings + [node.left], node.right;
      } else {
        siblings, current := siblings + [node.right], node.left;
      }
    }
  }

  method ReadSiblings(h: HashFn, key: Key, root: Hash, nodes: Store, defaults: seq<Hash>,
                      ghost m: Contents, ghost hashed: set<Bytes>) returns (siblings: seq<Hash>)
    requires |defaults| == 8 * |key| + 1
    requires forall d :: 0 <= d < |defaults| ==> defaults[d] == Default(h, 8 * |key|, d)
    requires Addressed(h, nodes, hashed)
    ensures |siblings| == 8 * |key|
    ensures NoCollision(h, hashed) && Agrees(h, |key|, m, root, nodes, hashed)
        ==> siblings == HonestSiblings(h, m, Bits(key))
  {
    siblings := ReadPath(key, root, nodes, defaults);
    if NoCollision(h, hashed) && Agrees(h, |key|, m, root, nodes, hashed) {
      assert Bits(key)[..0] == [];
      WalkIsHonest(h, m, nodes, hashed, Bits(key), defaults, 0, root, []);
      assert [] + siblings == siblings;
    }
  }

  /** Hash the path from a leaf to the root, filing every node on the way. */
  method StoreClimb(h: HashFn, key: Key, path: seq<Hash>, leaf: Hash, nodes: Store, ghost hashed: set<Bytes>)
    returns (root: Hash, nodes': Store, ghost hashed': set<Bytes>)
    requires |path| == 8 * |key| && Addressed(h, nodes, hashed)
    ensures root == Climb(h, Bits(key), path, leaf, 0)
    ensures nodes.Keys <= nodes'.Keys && hashed <= hashed' && Addressed(h, nodes', hashed')
    ensures Climbed(h, Bits(key), path, leaf, 0, nodes', hashed')
  {
    hide ValueBE, Pow2, Bits;
    ghost var bits := Bits(key);
    root, nodes', hashed' := leaf, nodes, hashed;
    var i := 8 * |key|;
    while i > 0
      invariant 0 <= i <= 8 * |key|
      invariant nodes.Keys <= nodes'.Keys && hashed <= hashed' && Addressed(h, nodes', hashed')
      invariant root == Climb(h, bits, path, leaf, i)
      invariant Climbed(h, bits, path, leaf, i, nodes', hashed')
    {
      i := i - 1;
      var right := KeyBit(key, i);
      var node := if right then InternalNode(path[i], root) else InternalNode(root, path[i]);
      ghost var nodes0, hashed0 := nodes', hashed';
      root := h(Join(node.left, node.right));
      nodes' := nodes'[root := node];
      hashed' := hashed' + {Join(node.left, node.right)};
      ClimbedUp(h, bits, path, leaf, i, nodes0, hashed0, nodes', hashed');
    }
  }

  class SparseMerkleTree {
    const h: HashFn
    const keyBytes: nat
    var nodes: Store
    var leaves: Contents
    var root: Hash
    var defaults: seq<Hash>
    /** Every string this tree has hashed so far. */
    ghost var hashed: set<Bytes>

    ghost predicate Valid()
      reads this
    {
      && WellFormed(leaves, keyBytes)
      && |defaults| == 8 * keyBytes + 1
      && (forall d :: 0 <= d <= 8 * keyBytes ==> defaults[d] == Default(h, 8 * keyBytes, d))
      && Addressed(h, nodes, hashed)
      && (NoCollision(h, hashed) ==> Agrees(h, keyBytes, leaves, root, nodes, hashed))
    }

    constructor (h: HashFn, keyBytes: nat)
      ensures Valid() && this.h == h && this.keyBytes == keyBytes
      ensures leaves == map[] && root == MerkleRoot(h, keyBytes, map[])
    {
      var d, asked := DefaultHashes(h, 8 * keyBytes);
      this.h, this.keyBytes := h, keyBytes;
      nodes, leaves, root, defaults, hashed := map[], map[], d[0], d, asked;
      NewAgrees(h, keyBytes, d, asked);
    }

    method Get(key: Key) returns (r: Bytes, found: bool)
      requires Valid()
      ensures r == Lookup(leaves, key) && found == (key in leaves) && (found <==> r != [])
    {
      found := key in leaves;
      r := if found then leaves[key] else [];
    }

    /** The siblings of the key's path, read off the store. */
    method ComputePath(key: Key) returns (siblings: seq<Hash>)
      requires Valid() && |key| == keyBytes
      ensures |siblings| == 8 * keyBytes
      ensures NoCollision(h, hashed) ==> siblings == HonestSiblings(h, leaves, Bits(key))
    {
      siblings := ReadSiblings(h, key, root, nodes, defaults, leaves, hashed);
    }

    /** Insert, overwrite or, with an empty value, remove. */
    method Put(key: Key, value: Bytes) returns (r: Hash)
      requires Valid() && |key| == keyBytes
      modifies this
      ensures Valid() && r == root
      ensures leaves == Updated(old(leaves), key, value)
      ensures old(hashed) <= hashed && defaults == old(defaults)
      ensures NoCollision(h, hashed) ==> root == MerkleRoot(h, keyBytes, leaves)
    {
      var path := ComputePath(key);
      var leaf := LeafHash(h, key, value);
      ghost var asked := hashed + if value == [] then {[]} else {value, LeafInput(h, key, value)};
      var top, store, asked' := StoreClimb(h, key, path, leaf, nodes, asked);
      var after := UpdateLeaves(leaves, key, value);
      if NoCollision(h, asked') {
        assert NoCollision(h, hashed);
        PutAgrees(h, keyBytes, leaves, key, value, root, nodes, hashed, store, asked');
      }
      nodes, hashed, root, leaves := store, asked', top, after;
      r := root;
    }

    /** The map after a put: an empty value removes the key, any other is inserted. */
    static method UpdateLeaves(leaves: Contents, key: Key, value: Bytes) returns (after: Contents)
      ensures after == Updated(leaves, key, value)
      ensures forall n :: WellFormed(leaves, n) && |key| == n ==> WellFormed(after, n)
    {
      if value == [] {
        after := leaves - {key};
      } else {
        after := leaves[key := value];
      }
    }

    method Proof(key: Key) returns (p: MerkleProof)
      requires Valid() && |key| == keyBytes
      ensures p.value == Lookup(leaves, key) && |p.siblings| == 8 * keyBytes
      ensures NoCollision(h, hashed) ==> p == HonestProof(h, leaves, key) && Verifies(h, root, key, p)
    {
      var siblings := ComputePath(key);
      p := MerkleProof(siblings, Lookup(leaves, key));
      HonestProofVerifies(h, keyBytes, leaves, key);
    }

    static method VerifyProof(h: HashFn, keyBytes: nat, root: Hash, key: Key, proof: MerkleProof) returns (ok: bool)
      requires |key| == keyBytes
      ensures ok == Verifies(h, root, key, proof)
    {
      if |proof.siblings| != 8 * keyBytes {
        return false;
      }
      hide ValueBE, Pow2, Bits;
      ghost var bits, leaf := Bits(key), LeafHash(h, key, proof.value);
      var current := LeafHash(h, key, proof.value);
      var d := 8 * keyBytes;
      while d > 0
        invariant 0 <= d <= 8 * keyBytes
        invariant current == Climb(h, bits, proof.siblings, leaf, d)
      {
        d := d - 1;
        var sibling := proof.siblings[d];
        var right := KeyBit(key, d);
        current := h(if right then Join(sibling, current) else Join(current, sibling));
      }
      ok := current == root;
    }
  }

  /** The string hashed at depth `i` when climbing from a proof's leaf. */
  function InputAt(h: HashFn, key: Key, p: MerkleProof, i: nat): Bytes
    requires |p.siblings| == 8 * |key| && i < 8 * |key|
  {
    Branch(Bits(key)[i], p.siblings[i], Climb(h, Bits(key), p.siblings, LeafHash(h, key, p.value), i + 1))
  }

  /** Strings hashed for both climbs contain the pair at which they collide. */
  lemma {:induction false} CollisionWasHashed(h: HashFn, key: Key, a: MerkleProof, b: MerkleProof, hashed: set<Bytes>, i: nat)
    requires |a.siblings| == |b.siblings| == 8 * |key| && i <= 8 * |key| && a.value != b.value
    requires forall j :: i <= j < 8 * |key| ==> InputAt(h, key, a, j) in hashed && InputAt(h, key, b, j) in hashed
    requires [] in hashed
    requires a.value != [] ==> a.value in hashed && LeafInput(h, key, a.value) in hashed
    requires b.value != [] ==> b.value in hashed && LeafInput(h, key, b.value) in hashed
    ensures var c := ClimbCollision(h, key, a, b, i); c.0 in hashed && c.1 in hashed
    decreases 8 * |key| - i
  {
    if i < 8 * |key| {
      assert InputAt(h, key, a, i) in hashed && InputAt(h, key, b, i) in hashed;
      CollisionWasHashed(h, key, a, b, hashed, i + 1);
    }
  }

  lemma HonestInput(h: HashFn, m: Contents, key: Key, i: nat)
    requires WellFormed(m, |key|) && i < 8 * |key|
    ensures InputAt(h, key, HonestProof(h, m, key), i) == NodeInput(h, 8 * |key|, m, Bits(key)[..i])
  {
    LeafNode(h, |key|, m, key);
    HonestClimb(h, m, Bits(key), i + 1);
    BranchIsNodeInput(h, m, Bits(key), i);
  }

  lemma HonestInputsHashed(h: HashFn, m: Contents, key: Key, hashed: set<Bytes>)
    requires WellFormed(m, |key|) && Covered(h, 8 * |key|, m, hashed)
    ensures forall i :: 0 <= i < 8 * |key| ==> InputAt(h, key, HonestProof(h, m, key), i) in hashed
  {
    forall i | 0 <= i < 8 * |key|
      ensures InputAt(h, key, HonestProof(h, m, key), i) in hashed
    {
      HonestInput(h, m, key, i);
    }
  }

  lemma RootDeterminesMap(h: HashFn, keyBytes: nat, m: Contents, m': Contents, hashed: set<Bytes>)
    requires WellFormed(m, keyBytes) && WellFormed(m', keyBytes) && NoCollision(h, hashed)
    requires Covered(h, 8 * keyBytes, m, hashed) && LeavesCovered(h, m, hashed)
    requires Covered(h, 8 * keyBytes, m', hashed) && LeavesCovered(h, m', hashed)
    requires MerkleRoot(h, keyBytes, m) == MerkleRoot(h, keyBytes, m')
    ensures m == m'
  {
    if m != m' {
      var key := RootBinding(h, keyBytes, m, m');
      HonestInputsHashed(h, m, key, hashed);
      HonestInputsHashed(h, m', key, hashed);
      CollisionWasHashed(h, key, HonestProof(h, m, key), HonestProof(h, m', key), hashed, 0);
    }
  }

  /**
   Two trees have the same root exactly when they hold the same map, whatever puts,
   overwrites and deletes led to them, unless two strings they hashed collide.
   */
  lemma SameRootSameMap(t: SparseMerkleTree, u: SparseMerkleTree)
    requires t.Valid() && u.Valid() && t.h == u.h && t.keyBytes == u.keyBytes
    requires NoCollision(t.h, t.hashed + u.hashed)
    ensures t.root == u.root <==> t.leaves == u.leaves
  {
    assert NoCollision(t.h, t.hashed) && NoCollision(u.h, u.hashed);
    if t.root == u.root {
      RootDeterminesMap(t.h, t.keyBytes, t.leaves, u.leaves, t.hashed + u.hashed);
    }
  }

  /** A proof accepted against a tree's root carries the value the tree stores. */
  lemma TreeProofSound(t: SparseMerkleTree, key: Key, p: MerkleProof)
    requires t.Valid() && |key| == t.keyBytes && Verifies(t.h, t.root, key, p)
    ensures !NoCollision(t.h, t.hashed) || p.value == Lookup(t.leaves, key)
         || var c := ClimbCollision(t.h, key, p, HonestProof(t.h, t.leaves, key), 0); Collision(t.h, c.0, c.1)
  {
    if NoCollision(t.h, t.hashed) {
      ProofSound(t.h, t.keyBytes, t.leaves, key, p);
    }
  }
}
