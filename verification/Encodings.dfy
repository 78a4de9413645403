/**
 The byte strings that are signed and hashed: transactions and transaction lists
 (sequencer/src/tx.rs, block.rs), spending policies (agent_wallet/src/policy.rs), and the
 protocol messages and disputes (agent_protocol/src/message.rs, dispute.rs).

 Lengths are written in 32 bits, so a variable field is recovered when it is shorter than
 2^32 bytes.  The lemmas are about prefixes: if two encodings start one and the same
 string, the encoded values are equal, and so is what follows them.
 */
module Encodings {
  import opened Bytes

  type PublicKey = Bytes32
  type Signature = Bytes64
  type Verifier = (PublicKey, Bytes, Signature) -> bool

  const MAX_LEN: nat := 0x1_0000_0000

  // ----- building blocks -----

  /** A 32-bit big-endian length, truncated, and the bytes. */
  function PushBytes(b: Bytes): Bytes {
    ToBE(|b| % MAX_LEN, 4) + b
  }

  lemma LengthBE(m: nat, n: nat)
    requires m < MAX_LEN && n < MAX_LEN && ToBE(m % MAX_LEN, 4) == ToBE(n % MAX_LEN, 4)
    ensures m == n
  {
    PowValues();
    ToBEInjective(m % MAX_LEN, n % MAX_LEN, 4);
  }

  lemma LengthLE(m: nat, n: nat)
    requires m < MAX_LEN && n < MAX_LEN && ToLE(m % MAX_LEN, 4) == ToLE(n % MAX_LEN, 4)
    ensures m == n
  {
    PowValues();
    ToLEInjective(m % MAX_LEN, n % MAX_LEN, 4);
  }

  lemma PushBytesPrefix(a: Bytes, r: Bytes, b: Bytes, s: Bytes)
    requires |a| < MAX_LEN && |b| < MAX_LEN
    requires PushBytes(a) + r == PushBytes(b) + s
    ensures a == b && r == s
  {
    ConcatSplit3(ToBE(|a| % MAX_LEN, 4), a, r, ToBE(|b| % MAX_LEN, 4), b, s);
    LengthBE(|a|, |b|);
    ConcatSplit(a, r, b, s);
  }

  /** Whatever the length, one variable field is recovered when what follows it has a known length. */
  lemma PushBytesWhole(a: Bytes, r: Bytes, b: Bytes, s: Bytes)
    requires PushBytes(a) + r == PushBytes(b) + s && |r| == |s|
    ensures a == b && r == s
  {
    ConcatSplit(PushBytes(a), r, PushBytes(b), s);
    ConcatSplit(ToBE(|a| % MAX_LEN, 4), a, ToBE(|b| % MAX_LEN, 4), b);
  }

  function PushLE(b: Bytes): Bytes {
    ToLE(|b| % MAX_LEN, 4) + b
  }

  lemma PushLEPrefix(a: Bytes, r: Bytes, b: Bytes, s: Bytes)
    requires |a| < MAX_LEN && |b| < MAX_LEN
    requires PushLE(a) + r == PushLE(b) + s
    ensures a == b && r == s
  {
    ConcatSplit3(ToLE(|a| % MAX_LEN, 4), a, r, ToLE(|b| % MAX_LEN, 4), b, s);
    LengthLE(|a|, |b|);
    ConcatSplit(a, r, b, s);
  }

  /** A presence byte, and a 32-byte field when present. */
  function OptFixed(o: Option<Bytes32>): Bytes {
    match o case None => [0] case Some(v) => [1] + v
  }

  lemma OptFixedPrefix(o: Option<Bytes32>, r: Bytes, p: Option<Bytes32>, s: Bytes)
    requires OptFixed(o) + r == OptFixed(p) + s
    ensures o == p && r == s
  {
    assert (OptFixed(o) + r)[0] == OptFixed(o)[0] && (OptFixed(p) + s)[0] == OptFixed(p)[0];
    ConcatSplit(OptFixed(o), r, OptFixed(p), s);
    if o.Some? {
      ConcatSplit([1], o.value, [1], p.value);
    }
  }

  function OptVar(o: Option<Bytes>): Bytes {
    match o case None => [0] case Some(v) => [1] + PushLE(v)
  }

  predicate Short(o: Option<Bytes>) {
    o.Some? ==> |o.value| < MAX_LEN
  }

  lemma OptVarPrefix(o: Option<Bytes>, r: Bytes, p: Option<Bytes>, s: Bytes)
    requires Short(o) && Short(p)
    requires OptVar(o) + r == OptVar(p) + s
    ensures o == p && r == s
  {
    assert (OptVar(o) + r)[0] == OptVar(o)[0] && (OptVar(p) + s)[0] == OptVar(p)[0];
    if o.Some? {
      ConcatSplit3([1], PushLE(o.value), r, [1], PushLE(p.value), s);
      PushLEPrefix(o.value, r, p.value, s);
    } else {
      ConcatSplit([0], r, [0], s);
    }
  }

  // ----- transactions -----

  datatype TxKind = Transfer | Mint | Burn | Freeze | MultiAsset

  datatype SignedTx = SignedTx(
    kind: TxKind, assetId: u32, nonce: u64, signer: PublicKey, recipient: Option<PublicKey>, amount: Bytes16,
    flag: byte, courtOrderHash: Option<Bytes32>, multiPayload: Option<Bytes>, originatorMetadata: Option<Bytes>,
    signature: Signature)

  function KindByte(k: TxKind): byte {
    match k case Transfer => 0 case Mint => 1 case Burn => 2 case Freeze => 3 case MultiAsset => 4
  }

  /** The fields of fixed length before the recipient. */
  function TxHead(t: SignedTx): (b: Bytes)
    ensures |b| == 45
  {
    [KindByte(t.kind)] + ToLE(t.assetId, 4) + ToLE(t.nonce, 8) + t.signer
  }

  function Canonical(t: SignedTx): Bytes {
    TxHead(t) + (OptFixed(t.recipient) + (t.amount + [t.flag] + (OptFixed(t.courtOrderHash)
      + (OptVar(t.multiPayload) + OptVar(t.originatorMetadata)))))
  }

  predicate ShortTx(t: SignedTx) {
    Short(t.multiPayload) && Short(t.originatorMetadata)
  }

  lemma TxHeadInjective(t: SignedTx, u: SignedTx)
    requires TxHead(t) == TxHead(u)
    ensures t.kind == u.kind && t.assetId == u.assetId && t.nonce == u.nonce && t.signer == u.signer
  {
    ConcatSplit([KindByte(t.kind)] + ToLE(t.assetId, 4) + ToLE(t.nonce, 8), t.signer,
                [KindByte(u.kind)] + ToLE(u.assetId, 4) + ToLE(u.nonce, 8), u.signer);
    ConcatSplit([KindByte(t.kind)] + ToLE(t.assetId, 4), ToLE(t.nonce, 8), [KindByte(u.kind)] + ToLE(u.assetId, 4), ToLE(u.nonce, 8));
    ConcatSplit([KindByte(t.kind)], ToLE(t.assetId, 4), [KindByte(u.kind)], ToLE(u.assetId, 4));
    PowValues();
    ToLEInjective(t.assetId, u.assetId, 4);
    ToLEInjective(t.nonce, u.nonce, 8);
  }

  lemma CanonicalAssoc(t: SignedTx, r: Bytes)
    ensures Canonical(t) + r == TxHead(t) + (OptFixed(t.recipient) + (t.amount + [t.flag] + (OptFixed(t.courtOrderHash)
      + (OptVar(t.multiPayload) + (OptVar(t.originatorMetadata) + r)))))
  {
    var a, b, c, d := OptFixed(t.recipient), t.amount + [t.flag], OptFixed(t.courtOrderHash), OptVar(t.multiPayload);
    var e := OptVar(t.originatorMetadata);
    Assoc(TxHead(t), a + (b + (c + (d + e))), r);
    Assoc(a, b + (c + (d + e)), r);
    Assoc(b, c + (d + e), r);
    Assoc(c, d + e, r);
    Assoc(d, e, r);
  }

  method PushOptFixed(buf: Bytes, o: Option<Bytes32>) returns (out: Bytes)
    ensures out == buf + OptFixed(o)
  {
    out := buf;
    if o.Some? {
      out := out + [1];
      out := out + o.value;
    } else {
      out := out + [0];
    }
  }

  method PushOptVar(buf: Bytes, o: Option<Bytes>) returns (out: Bytes)
    ensures out == buf + OptVar(o)
  {
    out := buf;
    if o.Some? {
      out := out + [1];
      out := out + ToLE(|o.value| % MAX_LEN, 4);
      out := out + o.value;
    } else {
      out := out + [0];
    }
  }

  /** The canonical bytes, pushed field by field onto one buffer. */
  method WriteCanonical(t: SignedTx) returns (buf: Bytes)
    ensures buf == Canonical(t)
  {
    buf := [KindByte(t.kind)];
    buf := buf + ToLE(t.assetId, 4);
    buf := buf + ToLE(t.nonce, 8);
    buf := buf + t.signer;
    buf := PushOptFixed(buf, t.recipient);
    buf := buf + t.amount;
    buf := buf + [t.flag];
    buf := PushOptFixed(buf, t.courtOrderHash);
    buf := PushOptVar(buf, t.multiPayload);
    buf := PushOptVar(buf, t.originatorMetadata);
    Nest(TxHead(t), OptFixed(t.recipient), t.amount, [t.flag], OptFixed(t.courtOrderHash), OptVar(t.multiPayload), OptVar(t.originatorMetadata));
  }

  lemma Nest(a: Bytes, b: Bytes, c: Bytes, d: Bytes, e: Bytes, f: Bytes, g: Bytes)
    ensures a + b + c + d + e + f + g == a + (b + (c + d + (e + (f + g))))
  {
    Assoc(a + b + c + d + e, f, g);
    Assoc(a + b + c + d, e, f + g);
    Assoc(a + b, c, d);
    Assoc(a + b, c + d, e + (f + g));
    Assoc(a, b, c + d + (e + (f + g)));
  }

  /** Transactions whose canonical bytes start one string agree on every signed field. */
  lemma CanonicalPrefix(t: SignedTx, r: Bytes, u: SignedTx, s: Bytes)
    requires ShortTx(t) && ShortTx(u) && Canonical(t) + r == Canonical(u) + s
    ensures t.(signature := u.signature) == u && r == s
  {
    var t5, u5 := OptVar(t.originatorMetadata) + r, OptVar(u.originatorMetadata) + s;
    var t4, u4 := OptVar(t.multiPayload) + t5, OptVar(u.multiPayload) + u5;
    var t3, u3 := OptFixed(t.courtOrderHash) + t4, OptFixed(u.courtOrderHash) + u4;
    var t2, u2 := t.amount + [t.flag] + t3, u.amount + [u.flag] + u3;
    var t1, u1 := OptFixed(t.recipient) + t2, OptFixed(u.recipient) + u2;
    CanonicalAssoc(t, r);
    CanonicalAssoc(u, s);
    ConcatSplit(TxHead(t), t1, TxHead(u), u1);
    TxHeadInjective(t, u);
    OptFixedPrefix(t.recipient, t2, u.recipient, u2);
    ConcatSplit(t.amount + [t.flag], t3, u.amount + [u.flag], u3);
    ConcatSplit(t.amount, [t.flag], u.amount, [u.flag]);
    OptFixedPrefix(t.courtOrderHash, t4, u.courtOrderHash, u4);
    OptVarPrefix(t.multiPayload, t5, u.multiPayload, u5);
    OptVarPrefix(t.originatorMetadata, r, u.originatorMetadata, s);
  }

  /** The string hashed for a list of transactions. */
  function TxListBytes(txs: seq<SignedTx>): Bytes {
    if txs == [] then []
    else ToLE(|Canonical(txs[0])| % MAX_LEN, 4) + (Canonical(txs[0]) + (txs[0].signature + TxListBytes(txs[1..])))
  }

  lemma Assoc4(a: Bytes, b: Bytes, c: Bytes, d: Bytes, e: Bytes)
    ensures a + b + c + d + e == a + (b + (c + (d + e)))
  {
  }

  method TxListInput(txs: seq<SignedTx>) returns (buf: Bytes)
    ensures buf == TxListBytes(txs)
  {
    buf := [];
    var i := 0;
    while i < |txs|
      invariant 0 <= i <= |txs|
      invariant buf + TxListBytes(txs[i..]) == TxListBytes(txs)
    {
      ghost var rest := TxListBytes(txs[i + 1..]);
      assert txs[i..][1..] == txs[i + 1..];
      var canonical := Canonical(txs[i]);
      Assoc4(buf, ToLE(|canonical| % MAX_LEN, 4), canonical, txs[i].signature, rest);
      buf := buf + ToLE(|canonical| % MAX_LEN, 4) + canonical + txs[i].signature;
      i := i + 1;
    }
    assert txs[i..] == [];
  }

  lemma {:induction false} TxListInjective(ts: seq<SignedTx>, us: seq<SignedTx>)
    requires forall i :: 0 <= i < |ts| ==> ShortTx(ts[i])
    requires forall i :: 0 <= i < |us| ==> ShortTx(us[i])
    requires TxListBytes(ts) == TxListBytes(us)
    ensures ts == us
  {
    if ts != [] && us != [] {
      var t, u := ts[0], us[0];
      var r, s := t.signature + TxListBytes(ts[1..]), u.signature + TxListBytes(us[1..]);
      ConcatSplit(ToLE(|Canonical(t)| % MAX_LEN, 4), Canonical(t) + r, ToLE(|Canonical(u)| % MAX_LEN, 4), Canonical(u) + s);
      CanonicalPrefix(t, r, u, s);
      ConcatSplit(t.signature, TxListBytes(ts[1..]), u.signature, TxListBytes(us[1..]));
      TxListInjective(ts[1..], us[1..]);
      assert ts == [t] + ts[1..] && us == [u] + us[1..];
    }
  }

  // ----- spending policies -----

  datatype KeyPolicy = KeyPolicy(
    childPubkey: PublicKey, parentPubkey: PublicKey, capPerWindow: u128, windowSecs: u64,
    allowedContracts: seq<Bytes>, allowedCounterparties: seq<PublicKey>, expiryUnix: u64, version: u64)

  const POLICY_TAG: Bytes := [80, 83, 76, 45, 75, 69, 89, 45, 80, 79, 76, 73, 67, 89, 45, 86, 49]

  function Names(names: seq<Bytes>): Bytes {
    if names == [] then [] else PushBytes(names[0]) + Names(names[1..])
  }

  function Keys(keys: seq<PublicKey>): Bytes {
    if keys == [] then [] else keys[0] + Keys(keys[1..])
  }

  function PolicyHead(p: KeyPolicy): (b: Bytes)
    ensures |b| == 121
  {
    POLICY_TAG + p.childPubkey + p.parentPubkey + ToBE(p.capPerWindow, 16) + ToBE(p.windowSecs, 8)
      + ToBE(p.expiryUnix, 8) + ToBE(p.version, 8)
  }

  function PolicyLists(contracts: seq<Bytes>, parties: seq<PublicKey>): Bytes {
    ToBE(|contracts| % MAX_LEN, 4) + (Names(contracts) + (ToBE(|parties| % MAX_LEN, 4) + Keys(parties)))
  }

  function PolicyBytes(p: KeyPolicy): Bytes {
    PolicyHead(p) + PolicyLists(p.allowedContracts, p.allowedCounterparties)
  }

  method PushNames(buf: Bytes, names: seq<Bytes>) returns (out: Bytes)
    ensures out == buf + Names(names)
  {
    out := buf;
    for i := 0 to |names|
      invariant out + Names(names[i..]) == buf + Names(names)
    {
      var b := names[i];
      assert names[i..][1..] == names[i + 1..];
      Assoc(out, PushBytes(b), Names(names[i + 1..]));
      Assoc(out, ToBE(|b| % MAX_LEN, 4), b);
      out := out + ToBE(|b| % MAX_LEN, 4);
      out := out + b;
    }
    assert out + Names(names[|names|..]) == out;
  }

  method PushKeys(buf: Bytes, keys: seq<PublicKey>) returns (out: Bytes)
    ensures out == buf + Keys(keys)
  {
    out := buf;
    for i := 0 to |keys|
      invariant out + Keys(keys[i..]) == buf + Keys(keys)
    {
      assert keys[i..][1..] == keys[i + 1..];
      Assoc(out, keys[i], Keys(keys[i + 1..]));
      out := out + keys[i];
    }
    assert out + Keys(keys[|keys|..]) == out;
  }

  /** The policy bytes, pushed field by field onto one buffer. */
  method WritePolicy(p: KeyPolicy) returns (out: Bytes)
    ensures out == PolicyBytes(p)
  {
    out := POLICY_TAG;
    out := out + p.childPubkey;
    out := out + p.parentPubkey;
    out := out + ToBE(p.capPerWindow, 16);
    out := out + ToBE(p.windowSecs, 8);
    out := out + ToBE(p.expiryUnix, 8);
    out := out + ToBE(p.version, 8);
    ghost var head := out;
    var count, count' := ToBE(|p.allowedContracts| % MAX_LEN, 4), ToBE(|p.allowedCounterparties| % MAX_LEN, 4);
    out := out + count;
    out := PushNames(out, p.allowedContracts);
    out := out + count';
    out := PushKeys(out, p.allowedCounterparties);
    Assoc4(head, count, Names(p.allowedContracts), count', Keys(p.allowedCounterparties));
  }

  predicate ShortPolicy(p: KeyPolicy) {
    && |p.allowedContracts| < MAX_LEN && |p.allowedCounterparties| < MAX_LEN
    && forall i :: 0 <= i < |p.allowedContracts| ==> |p.allowedContracts[i]| < MAX_LEN
  }

  lemma {:induction false} NamesPrefix(a: seq<Bytes>, r: Bytes, b: seq<Bytes>, s: Bytes)
    requires |a| == |b| && Names(a) + r == Names(b) + s
    requires forall i :: 0 <= i < |a| ==> |a[i]| < MAX_LEN && |b[i]| < MAX_LEN
    ensures a == b && r == s
  {
    hide PushBytes;
    if a == [] {
      assert Names(a) + r == r && Names(b) + s == s;
    } else {
      Assoc(PushBytes(a[0]), Names(a[1..]), r);
      Assoc(PushBytes(b[0]), Names(b[1..]), s);
      PushBytesPrefix(a[0], Names(a[1..]) + r, b[0], Names(b[1..]) + s);
      NamesPrefix(a[1..], r, b[1..], s);
      assert a == [a[0]] + a[1..] && b == [b[0]] + b[1..];
    }
  }

  lemma {:induction false} KeysInjective(a: seq<PublicKey>, b: seq<PublicKey>)
    requires |a| == |b| && Keys(a) == Keys(b)
    ensures a == b
  {
    if a != [] {
      ConcatSplit(a[0], Keys(a[1..]), b[0], Keys(b[1..]));
      KeysInjective(a[1..], b[1..]);
      assert a == [a[0]] + a[1..] && b == [b[0]] + b[1..];
    }
  }

  lemma PolicyHeadInjective(p: KeyPolicy, q: KeyPolicy)
    requires PolicyHead(p) == PolicyHead(q)
    ensures p.childPubkey == q.childPubkey && p.parentPubkey == q.parentPubkey && p.capPerWindow == q.capPerWindow
    ensures p.windowSecs == q.windowSecs && p.expiryUnix == q.expiryUnix && p.version == q.version
  {
    PolicySlices(POLICY_TAG, p.childPubkey, p.parentPubkey, ToBE(p.capPerWindow, 16),
                 ToBE(p.windowSecs, 8), ToBE(p.expiryUnix, 8), ToBE(p.version, 8));
    PolicySlices(POLICY_TAG, q.childPubkey, q.parentPubkey, ToBE(q.capPerWindow, 16),
                 ToBE(q.windowSecs, 8), ToBE(q.expiryUnix, 8), ToBE(q.version, 8));
    PowValues();
    ToBEInjective(p.capPerWindow, q.capPerWindow, 16);
    ToBEInjective(p.windowSecs, q.windowSecs, 8);
    ToBEInjective(p.expiryUnix, q.expiryUnix, 8);
    ToBEInjective(p.version, q.version, 8);
  }

  lemma PolicySlices(tag: Bytes, child: Bytes, parent: Bytes, cap: Bytes, window: Bytes, expiry: Bytes, version: Bytes)
    requires |tag| == 17 && |child| == |parent| == 32 && |cap| == 16 && |window| == |expiry| == |version| == 8
    ensures var a := tag + child + parent + cap + window + expiry + version;
            && a[17..49] == child && a[49..81] == parent && a[81..97] == cap
            && a[97..105] == window && a[105..113] == expiry && a[113..121] == version
  {
  }

  lemma CountPrefix(m: nat, r: Bytes, n: nat, s: Bytes)
    requires m < MAX_LEN && n < MAX_LEN && ToBE(m % MAX_LEN, 4) + r == ToBE(n % MAX_LEN, 4) + s
    ensures m == n && r == s
  {
    ConcatSplit(ToBE(m % MAX_LEN, 4), r, ToBE(n % MAX_LEN, 4), s);
    LengthBE(m, n);
  }

  lemma CountedNames(a: seq<Bytes>, p: Bytes, b: seq<Bytes>, q: Bytes)
    requires |a| < MAX_LEN && |b| < MAX_LEN && ToBE(|a| % MAX_LEN, 4) + (Names(a) + p) == ToBE(|b| % MAX_LEN, 4) + (Names(b) + q)
    requires forall i :: 0 <= i < |a| ==> |a[i]| < MAX_LEN
    requires forall i :: 0 <= i < |b| ==> |b[i]| < MAX_LEN
    ensures a == b && p == q
  {
    CountPrefix(|a|, Names(a) + p, |b|, Names(b) + q);
    NamesPrefix(a, p, b, q);
  }

  lemma CountedKeys(k: seq<PublicKey>, l: seq<PublicKey>)
    requires |k| < MAX_LEN && |l| < MAX_LEN && ToBE(|k| % MAX_LEN, 4) + Keys(k) == ToBE(|l| % MAX_LEN, 4) + Keys(l)
    ensures k == l
  {
    CountPrefix(|k|, Keys(k), |l|, Keys(l));
    KeysInjective(k, l);
  }

  lemma PolicyListsInjective(a: seq<Bytes>, k: seq<PublicKey>, b: seq<Bytes>, l: seq<PublicKey>)
    requires |a| < MAX_LEN && |b| < MAX_LEN && |k| < MAX_LEN && |l| < MAX_LEN
    requires forall i :: 0 <= i < |a| ==> |a[i]| < MAX_LEN
    requires forall i :: 0 <= i < |b| ==> |b[i]| < MAX_LEN
    requires PolicyLists(a, k) == PolicyLists(b, l)
    ensures a == b && k == l
  {
    var p, q := ToBE(|k| % MAX_LEN, 4) + Keys(k), ToBE(|l| % MAX_LEN, 4) + Keys(l);
    assert ToBE(|a| % MAX_LEN, 4) + (Names(a) + p) == ToBE(|b| % MAX_LEN, 4) + (Names(b) + q);
    CountedNames(a, p, b, q);
    CountedKeys(k, l);
  }

  lemma PolicyInjective(p: KeyPolicy, q: KeyPolicy)
    requires ShortPolicy(p) && ShortPolicy(q) && PolicyBytes(p) == PolicyBytes(q)
    ensures p == q
  {
    ConcatSplit(PolicyHead(p), PolicyLists(p.allowedContracts, p.allowedCounterparties),
                PolicyHead(q), PolicyLists(q.allowedContracts, q.allowedCounterparties));
    PolicyHeadInjective(p, q);
    PolicyListsInjective(p.allowedContracts, p.allowedCounterparties, q.allowedContracts, q.allowedCounterparties);
  }

  // ----- protocol messages -----

  datatype Propose = Propose(
    programHash: Bytes64, parameters: Bytes, from: PublicKey, to: PublicKey,
    validFrom: u64, validUntil: u64, nonce: u64, sig: Signature)
  datatype Accept = Accept(proposalHash: Bytes32, party: PublicKey, acceptedAt: u64, sig: Signature)
  datatype Reject = Reject(proposalHash: Bytes32, party: PublicKey, reason: Bytes, rejectedAt: u64, sig: Signature)
  datatype CounterPropose = CounterPropose(originalHash: Bytes32, newParameters: Bytes, party: PublicKey, nonce: u64, sig: Signature)
  datatype Execute = Execute(
    proposalHash: Bytes32, evidence: Bytes, expectedOutput: Bytes, party: PublicKey, executedAt: u64, sig: Signature)
  datatype Dispute = Dispute(
    proposalHash: Bytes32, evidence: Bytes, claimedOutput: Bytes, disputer: PublicKey, openedAt: u64, sig: Signature)

  /** Everything that is signed in the agent layer. */
  datatype Message =
    | ProposeMsg(propose: Propose)
    | AcceptMsg(accept: Accept)
    | RejectMsg(reject: Reject)
    | CounterMsg(counter: CounterPropose)
    | ExecuteMsg(execute: Execute)
    | DisputeMsg(dispute: Dispute)

  // PSL-PROPOSE-V2, PSL-ACCEPT-V1, PSL-REJECT-V1, PSL-COUNTER-V1, PSL-EXECUTE-V1, PSL-DISPUTE-V1
  const PROPOSE_TAG: Bytes := [80, 83, 76, 45, 80, 82, 79, 80, 79, 83, 69, 45, 86, 50]
  const ACCEPT_TAG: Bytes := [80, 83, 76, 45, 65, 67, 67, 69, 80, 84, 45, 86, 49]
  const REJECT_TAG: Bytes := [80, 83, 76, 45, 82, 69, 74, 69, 67, 84, 45, 86, 49]
  const COUNTER_TAG: Bytes := [80, 83, 76, 45, 67, 79, 85, 78, 84, 69, 82, 45, 86, 49]
  const EXECUTE_TAG: Bytes := [80, 83, 76, 45, 69, 88, 69, 67, 85, 84, 69, 45, 86, 49]
  const DISPUTE_TAG: Bytes := [80, 83, 76, 45, 68, 73, 83, 80, 85, 84, 69, 45, 86, 49]

  function ProposeBytes(p: Propose): Bytes {
    PROPOSE_TAG + (p.programHash + (PushBytes(p.parameters)
      + (p.from + (p.to + (ToBE(p.validFrom, 8) + (ToBE(p.validUntil, 8) + ToBE(p.nonce, 8)))))))
  }

  function AcceptBytes(a: Accept): Bytes {
    ACCEPT_TAG + (a.proposalHash + (a.party + ToBE(a.acceptedAt, 8)))
  }

  function RejectBytes(r: Reject): Bytes {
    REJECT_TAG + (r.proposalHash + (r.party + (PushBytes(r.reason) + ToBE(r.rejectedAt, 8))))
  }

  function CounterBytes(c: CounterPropose): Bytes {
    COUNTER_TAG + (c.originalHash + (PushBytes(c.newParameters) + (c.party + ToBE(c.nonce, 8))))
  }

  function ExecuteBytes(e: Execute): Bytes {
    EXECUTE_TAG + (e.proposalHash + (PushBytes(e.evidence) + (PushBytes(e.expectedOutput) + (e.party + ToBE(e.executedAt, 8)))))
  }

  function DisputeBytes(d: Dispute): Bytes {
    DISPUTE_TAG + (d.proposalHash + (PushBytes(d.evidence) + (PushBytes(d.claimedOutput) + (d.disputer + ToBE(d.openedAt, 8)))))
  }

  function MessageBytes(m: Message): Bytes {
    match m
    case ProposeMsg(p) => ProposeBytes(p)
    case AcceptMsg(a) => AcceptBytes(a)
    case RejectMsg(r) => RejectBytes(r)
    case CounterMsg(c) => CounterBytes(c)
    case ExecuteMsg(e) => ExecuteBytes(e)
    case DisputeMsg(d) => DisputeBytes(d)
  }

  /** The same message under another signature. */
  function Resigned(m: Message, sig: Signature): Message {
    match m
    case ProposeMsg(p) => ProposeMsg(p.(sig := sig))
    case AcceptMsg(a) => AcceptMsg(a.(sig := sig))
    case RejectMsg(r) => RejectMsg(r.(sig := sig))
    case CounterMsg(c) => CounterMsg(c.(sig := sig))
    case ExecuteMsg(e) => ExecuteMsg(e.(sig := sig))
    case DisputeMsg(d) => DisputeMsg(d.(sig := sig))
  }

  /** Only messages with two variable fields need the first of them to be short. */
  predicate ShortMessage(m: Message) {
    match m
    case ExecuteMsg(e) => |e.evidence| < MAX_LEN
    case DisputeMsg(d) => |d.evidence| < MAX_LEN
    case _ => true
  }

  lemma U64Injective(v: u64, w: u64)
    requires ToBE(v, 8) == ToBE(w, 8)
    ensures v == w
  {
    PowValues();
    ToBEInjective(v, w, 8);
  }

  lemma ProposeInjective(p: Propose, q: Propose)
    requires ProposeBytes(p) == ProposeBytes(q)
    ensures p.(sig := q.sig) == q
  {
    var p3, q3 := ToBE(p.validUntil, 8) + ToBE(p.nonce, 8), ToBE(q.validUntil, 8) + ToBE(q.nonce, 8);
    var p2, q2 := ToBE(p.validFrom, 8) + p3, ToBE(q.validFrom, 8) + q3;
    var p1, q1 := p.from + (p.to + p2), q.from + (q.to + q2);
    ConcatSplit(PROPOSE_TAG, p.programHash + (PushBytes(p.parameters) + p1), PROPOSE_TAG, q.programHash + (PushBytes(q.parameters) + q1));
    ConcatSplit(p.programHash, PushBytes(p.parameters) + p1, q.programHash, PushBytes(q.parameters) + q1);
    PushBytesWhole(p.parameters, p1, q.parameters, q1);
    ConcatSplit(p.from, p.to + p2, q.from, q.to + q2);
    ConcatSplit(p.to, p2, q.to, q2);
    ConcatSplit(ToBE(p.validFrom, 8), p3, ToBE(q.validFrom, 8), q3);
    ConcatSplit(ToBE(p.validUntil, 8), ToBE(p.nonce, 8), ToBE(q.validUntil, 8), ToBE(q.nonce, 8));
    U64Injective(p.validFrom, q.validFrom);
    U64Injective(p.validUntil, q.validUntil);
    U64Injective(p.nonce, q.nonce);
  }

  lemma AcceptInjective(a: Accept, b: Accept)
    requires AcceptBytes(a) == AcceptBytes(b)
    ensures a.(sig := b.sig) == b
  {
    ConcatSplit(ACCEPT_TAG, a.proposalHash + (a.party + ToBE(a.acceptedAt, 8)), ACCEPT_TAG, b.proposalHash + (b.party + ToBE(b.acceptedAt, 8)));
    ConcatSplit(a.proposalHash, a.party + ToBE(a.acceptedAt, 8), b.proposalHash, b.party + ToBE(b.acceptedAt, 8));
    ConcatSplit(a.party, ToBE(a.acceptedAt, 8), b.party, ToBE(b.acceptedAt, 8));
    U64Injective(a.acceptedAt, b.acceptedAt);
  }

  lemma RejectInjective(a: Reject, b: Reject)
    requires RejectBytes(a) == RejectBytes(b)
    ensures a.(sig := b.sig) == b
  {
    var a2, b2 := PushBytes(a.reason) + ToBE(a.rejectedAt, 8), PushBytes(b.reason) + ToBE(b.rejectedAt, 8);
    ConcatSplit(REJECT_TAG, a.proposalHash + (a.party + a2), REJECT_TAG, b.proposalHash + (b.party + b2));
    ConcatSplit(a.proposalHash, a.party + a2, b.proposalHash, b.party + b2);
    ConcatSplit(a.party, a2, b.party, b2);
    PushBytesWhole(a.reason, ToBE(a.rejectedAt, 8), b.reason, ToBE(b.rejectedAt, 8));
    U64Injective(a.rejectedAt, b.rejectedAt);
  }

  lemma CounterInjective(a: CounterPropose, b: CounterPropose)
    requires CounterBytes(a) == CounterBytes(b)
    ensures a.(sig := b.sig) == b
  {
    var a2, b2 := a.party + ToBE(a.nonce, 8), b.party + ToBE(b.nonce, 8);
    ConcatSplit(COUNTER_TAG, a.originalHash + (PushBytes(a.newParameters) + a2), COUNTER_TAG, b.originalHash + (PushBytes(b.newParameters) + b2));
    ConcatSplit(a.originalHash, PushBytes(a.newParameters) + a2, b.originalHash, PushBytes(b.newParameters) + b2);
    PushBytesWhole(a.newParameters, a2, b.newParameters, b2);
    ConcatSplit(a.party, ToBE(a.nonce, 8), b.party, ToBE(b.nonce, 8));
    U64Injective(a.nonce, b.nonce);
  }

  /** The common shape of executes and disputes: a hash, two variable fields, a key and a time. */
  function TwoField(tag: Bytes, hash: Bytes32, x: Bytes, y: Bytes, key: PublicKey, at: u64): Bytes {
    tag + (hash + (PushBytes(x) + (PushBytes(y) + (key + ToBE(at, 8)))))
  }

  lemma TwoFieldInjective(tag: Bytes, hash: Bytes32, x: Bytes, y: Bytes, key: PublicKey, at: u64,
                          hash': Bytes32, x': Bytes, y': Bytes, key': PublicKey, at': u64)
    requires |x| < MAX_LEN && |x'| < MAX_LEN
    requires TwoField(tag, hash, x, y, key, at) == TwoField(tag, hash', x', y', key', at')
    ensures hash == hash' && x == x' && y == y' && key == key' && at == at'
  {
    var a2, b2 := key + ToBE(at, 8), key' + ToBE(at', 8);
    var a1, b1 := PushBytes(y) + a2, PushBytes(y') + b2;
    ConcatSplit(tag, hash + (PushBytes(x) + a1), tag, hash' + (PushBytes(x') + b1));
    ConcatSplit(hash, PushBytes(x) + a1, hash', PushBytes(x') + b1);
    PushBytesPrefix(x, a1, x', b1);
    PushBytesWhole(y, a2, y', b2);
    ConcatSplit(key, ToBE(at, 8), key', ToBE(at', 8));
    U64Injective(at, at');
  }

  lemma ExecuteInjective(a: Execute, b: Execute)
    requires |a.evidence| < MAX_LEN && |b.evidence| < MAX_LEN && ExecuteBytes(a) == ExecuteBytes(b)
    ensures a.(sig := b.sig) == b
  {
    TwoFieldInjective(EXECUTE_TAG, a.proposalHash, a.evidence, a.expectedOutput, a.party, a.executedAt,
                      b.proposalHash, b.evidence, b.expectedOutput, b.party, b.executedAt);
  }

  lemma DisputeInjective(a: Dispute, b: Dispute)
    requires |a.evidence| < MAX_LEN && |b.evidence| < MAX_LEN && DisputeBytes(a) == DisputeBytes(b)
    ensures a.(sig := b.sig) == b
  {
    TwoFieldInjective(DISPUTE_TAG, a.proposalHash, a.evidence, a.claimedOutput, a.disputer, a.openedAt,
                      b.proposalHash, b.evidence, b.claimedOutput, b.disputer, b.openedAt);
  }

  /** The fifth byte of the tag already tells the kinds apart. */
  function TagByte(m: Message): byte {
    match m case ProposeMsg(_) => 80 case AcceptMsg(_) => 65 case RejectMsg(_) => 82
            case CounterMsg(_) => 67 case ExecuteMsg(_) => 69 case DisputeMsg(_) => 68
  }

  lemma TagOf(m: Message)
    ensures |MessageBytes(m)| > 4 && MessageBytes(m)[4] == TagByte(m)
  {
    match m
    case ProposeMsg(p) => assert ProposeBytes(p)[4] == PROPOSE_TAG[4];
    case AcceptMsg(a) => assert AcceptBytes(a)[4] == ACCEPT_TAG[4];
    case RejectMsg(r) => assert RejectBytes(r)[4] == REJECT_TAG[4];
    case CounterMsg(c) => assert CounterBytes(c)[4] == COUNTER_TAG[4];
    case ExecuteMsg(e) => assert ExecuteBytes(e)[4] == EXECUTE_TAG[4];
    case DisputeMsg(d) => assert DisputeBytes(d)[4] == DISPUTE_TAG[4];
  }

  /** Equal signed bytes mean the same message of the same kind, up to the signature itself. */
  lemma MessageInjective(m: Message, n: Message)
    requires ShortMessage(m) && ShortMessage(n) && MessageBytes(m) == MessageBytes(n)
    ensures forall sig :: Resigned(m, sig) == Resigned(n, sig)
  {
    TagOf(m);
    TagOf(n);
    match m
    case ProposeMsg(p) => ProposeInjective(p, n.propose);
    case AcceptMsg(a) => AcceptInjective(a, n.accept);
    case RejectMsg(r) => RejectInjective(r, n.reject);
    case CounterMsg(c) => CounterInjective(c, n.counter);
    case ExecuteMsg(e) => ExecuteInjective(e, n.execute);
    case DisputeMsg(d) => DisputeInjective(d, n.dispute);
  }

  // ----- block headers -----

  datatype Header = Header(
    blockN: u64, parentHash: Bytes32, prevStateRoot: Bytes32, txListHash: Bytes32, traceHash: Bytes32,
    newStateRoot: Bytes32, registryRoot: Bytes32, timestampMs: u64, sequencerPubkey: PublicKey)
  datatype SignedHeader = SignedHeader(header: Header, signature: Signature)

  function HeaderBytes(h: Header): (b: Bytes)
    ensures |b| == 240
  {
    ToLE(h.blockN, 8) + h.parentHash + h.prevStateRoot + h.txListHash + h.traceHash + h.newStateRoot
      + h.registryRoot + ToLE(h.timestampMs, 8) + h.sequencerPubkey
  }

  function FullHeaderBytes(s: SignedHeader): Bytes {
    HeaderBytes(s.header) + s.signature
  }

  lemma FullHeaderInjective(s: SignedHeader, t: SignedHeader)
    requires FullHeaderBytes(s) == FullHeaderBytes(t)
    ensures s == t
  {
    ConcatSplit(HeaderBytes(s.header), s.signature, HeaderBytes(t.header), t.signature);
    HeaderInjective(s.header, t.header);
  }

  lemma HeaderInjective(g: Header, h: Header)
    requires HeaderBytes(g) == HeaderBytes(h)
    ensures g == h
  {
    HeaderSlices(ToLE(g.blockN, 8), g.parentHash, g.prevStateRoot, g.txListHash, g.traceHash, g.newStateRoot,
                 g.registryRoot, ToLE(g.timestampMs, 8), g.sequencerPubkey);
    HeaderSlices(ToLE(h.blockN, 8), h.parentHash, h.prevStateRoot, h.txListHash, h.traceHash, h.newStateRoot,
                 h.registryRoot, ToLE(h.timestampMs, 8), h.sequencerPubkey);
    PowValues();
    ToLEInjective(g.blockN, h.blockN, 8);
    ToLEInjective(g.timestampMs, h.timestampMs, 8);
  }

  lemma HeaderSlices(n: Bytes, a: Bytes, b: Bytes, c: Bytes, d: Bytes, e: Bytes, f: Bytes, t: Bytes, k: Bytes)
    requires |n| == |t| == 8 && |a| == |b| == |c| == |d| == |e| == |f| == |k| == 32
    ensures var x := n + a + b + c + d + e + f + t + k;
            && x[0..8] == n && x[8..40] == a && x[40..72] == b && x[72..104] == c && x[104..136] == d
            && x[136..168] == e && x[168..200] == f && x[200..208] == t && x[208..240] == k
  {
  }
}
