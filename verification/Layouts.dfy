/**
 Where each field stands in the byte strings that are signed and hashed
 (sequencer/src/tx.rs, block.rs, agent_protocol/src/message.rs, dispute.rs,
 agent_wallet/src/policy.rs), and in packed weights (ternary_vm/src/weights.rs): what a reader finds who knows the offsets and nothing else.
 */
module Layouts {
  import opened Bytes
  import opened Encodings
  import Weights
  import WeightFormat
  import Network

  /** The string reads `b` at `i`, and `r` after it. */
  lemma Take(s: Bytes, i: nat, b: Bytes, r: Bytes)
    requires i <= |s| && s[i..] == b + r
    ensures i + |b| <= |s| && s[i..i + |b|] == b && s[i + |b|..] == r
  {
    assert s[i..i + |b|] == s[i..][..|b|];
    assert s[i + |b|..] == s[i..][|b|..];
  }

  lemma Whole(s: Bytes)
    ensures s[0..] == s
  {
  }

  lemma NumberBE(v: nat, n: nat)
    requires (n == 4 && v < MAX_LEN) || (n == 8 && v < TWO64) || (n == 16 && v < TWO128)
    ensures ValueBE(ToBE(v, n)) == v
  {
    PowValues();
    ValueToBE(v, n);
  }

  lemma NumberLE(v: nat, n: nat)
    requires (n == 4 && v < MAX_LEN) || (n == 8 && v < TWO64)
    ensures ValueLE(ToLE(v, n)) == v
  {
    PowValues();
    ValueToLE(v, n);
  }

  // ----- transactions -----

  function Size(o: Option<Bytes32>): nat { if o.Some? then 33 else 1 }

  /** An optional field of 32 bytes at `i`: a presence byte, then the field. */
  ghost predicate OptionAt(s: Bytes, i: nat, o: Option<Bytes32>) {
    && i + Size(o) <= |s| && s[i] == (if o.Some? then 1 else 0) && (o.Some? ==> s[i + 1..i + 33] == o.value)
  }

  /** An optional field of any length at `i`: a presence byte, a little-endian length, and the field. */
  ghost predicate FieldAt(s: Bytes, i: nat, o: Option<Bytes>) {
    && i < |s| && s[i] == (if o.Some? then 1 else 0)
    && (o.Some? ==> i + 5 + |o.value| <= |s| && ValueLE(s[i + 1..i + 5]) == |o.value| && s[i + 5..i + 5 + |o.value|] == o.value)
  }

  function FieldSize(o: Option<Bytes>): nat { if o.Some? then 5 + |o.value| else 1 }

  lemma TakeOption(s: Bytes, i: nat, o: Option<Bytes32>, r: Bytes)
    requires i <= |s| && s[i..] == OptFixed(o) + r
    ensures OptionAt(s, i, o) && s[i + Size(o)..] == r
  {
    Take(s, i, OptFixed(o), r);
    assert s[i] == s[i..i + Size(o)][0];
    if o.Some? {
      assert s[i + 1..i + 33] == s[i..i + 33][1..];
    }
  }

  lemma TakeField(s: Bytes, i: nat, o: Option<Bytes>, r: Bytes)
    requires i <= |s| && s[i..] == OptVar(o) + r && Short(o)
    ensures FieldAt(s, i, o) && i + FieldSize(o) <= |s| && s[i + FieldSize(o)..] == r
  {
    hide ToLE, ValueLE;
    if o.Some? {
      var len := ToLE(|o.value|, 4);
      assert OptVar(o) + r == [1] + (len + (o.value + r));
      Take(s, i, [1], len + (o.value + r));
      Take(s, i + 1, len, o.value + r);
      Take(s, i + 5, o.value, r);
      assert s[i] == s[i..i + 1][0];
      NumberLE(|o.value|, 4);
    } else {
      Take(s, i, [0], r);
      assert s[i] == s[i..i + 1][0];
    }
  }

  /** The fields of a transaction's canonical bytes, one after the other. */
  lemma TxLayout(t: SignedTx)
    requires ShortTx(t)
    ensures var s := Canonical(t);
            var a := 45 + Size(t.recipient);
            var b := a + 17 + Size(t.courtOrderHash);
            var c := b + FieldSize(t.multiPayload);
            && |s| == c + FieldSize(t.originatorMetadata)
            && s[0] == (match t.kind case Transfer => 0 case Mint => 1 case Burn => 2 case Freeze => 3 case MultiAsset => 4)
            && ValueLE(s[1..5]) == t.assetId && ValueLE(s[5..13]) == t.nonce && s[13..45] == t.signer
            && OptionAt(s, 45, t.recipient) && s[a..a + 16] == t.amount && s[a + 16] == t.flag
            && OptionAt(s, a + 17, t.courtOrderHash) && FieldAt(s, b, t.multiPayload) && FieldAt(s, c, t.originatorMetadata)
  {
    hide Canonical, TxHead, OptFixed, OptVar, OptionAt, FieldAt, ValueLE, ToLE;
    var s, a := Canonical(t), 45 + Size(t.recipient);
    var b := a + 17 + Size(t.courtOrderHash);
    var r4 := OptVar(t.originatorMetadata) + [];
    var r3 := OptVar(t.multiPayload) + r4;
    var r2 := OptFixed(t.courtOrderHash) + r3;
    var r1 := t.amount + [t.flag] + r2;
    CanonicalAssoc(t, []);
    assert s + [] == s;
    Whole(s);
    Take(s, 0, TxHead(t), OptFixed(t.recipient) + r1);
    HeadLayout(t, s);
    TakeOption(s, 45, t.recipient, r1);
    Take(s, a, t.amount + [t.flag], r2);
    assert s[a..a + 17][..16] == s[a..a + 16] && s[a + 16] == s[a..a + 17][16];
    TakeOption(s, a + 17, t.courtOrderHash, r3);
    TakeField(s, b, t.multiPayload, r4);
    TakeField(s, b + FieldSize(t.multiPayload), t.originatorMetadata, []);
  }

  lemma HeadLayout(t: SignedTx, s: Bytes)
    requires |s| >= 45 && s[0..45] == TxHead(t)
    ensures s[0] == KindByte(t.kind) && ValueLE(s[1..5]) == t.assetId && ValueLE(s[5..13]) == t.nonce && s[13..45] == t.signer
  {
    hide ToLE, ValueLE;
    var n, m := ToLE(t.assetId, 4), ToLE(t.nonce, 8);
    assert TxHead(t) == [KindByte(t.kind)] + (n + (m + t.signer));
    Take(TxHead(t), 0, [KindByte(t.kind)], n + (m + t.signer));
    Take(TxHead(t), 1, n, m + t.signer);
    Take(TxHead(t), 5, m, t.signer + []);
    assert s[0] == TxHead(t)[0] && s[1..5] == TxHead(t)[1..5] && s[5..13] == TxHead(t)[5..13] && s[13..45] == TxHead(t)[13..];
    NumberLE(t.assetId, 4);
    NumberLE(t.nonce, 8);
  }

  // ----- headers -----

  lemma HeaderLayout(g: Header)
    ensures var s := HeaderBytes(g);
            && ValueLE(s[0..8]) == g.blockN && s[8..40] == g.parentHash && s[40..72] == g.prevStateRoot
            && s[72..104] == g.txListHash && s[104..136] == g.traceHash && s[136..168] == g.newStateRoot
            && s[168..200] == g.registryRoot && ValueLE(s[200..208]) == g.timestampMs && s[208..240] == g.sequencerPubkey
  {
    hide ToLE, ValueLE;
    HeaderSlices(ToLE(g.blockN, 8), g.parentHash, g.prevStateRoot, g.txListHash, g.traceHash, g.newStateRoot,
                 g.registryRoot, ToLE(g.timestampMs, 8), g.sequencerPubkey);
    NumberLE(g.blockN, 8);
    NumberLE(g.timestampMs, 8);
  }

  // ----- protocol messages -----

  /** A field of any length at `i`: a big-endian length and the field. */
  ghost predicate BytesAt(s: Bytes, i: nat, b: Bytes) {
    i + 4 + |b| <= |s| && ValueBE(s[i..i + 4]) == |b| && s[i + 4..i + 4 + |b|] == b
  }

  lemma TakeBytes(s: Bytes, i: nat, b: Bytes, r: Bytes)
    requires i <= |s| && s[i..] == PushBytes(b) + r && |b| < MAX_LEN
    ensures BytesAt(s, i, b) && i + 4 + |b| <= |s| && s[i + 4 + |b|..] == r
  {
    hide ToBE, ValueBE;
    Assoc(ToBE(|b|, 4), b, r);
    Take(s, i, ToBE(|b|, 4), b + r);
    Take(s, i + 4, b, r);
    NumberBE(|b|, 4);
  }

  lemma TakeLast(s: Bytes, i: nat, v: u64)
    requires i <= |s| && s[i..] == ToBE(v, 8)
    ensures |s| == i + 8 && ValueBE(s[i..i + 8]) == v
  {
    hide ToBE, ValueBE;
    Take(s, i, ToBE(v, 8), []);
    NumberBE(v, 8);
  }

  lemma ProposeLayout(p: Propose)
    requires |p.parameters| < MAX_LEN
    ensures var s, a := ProposeBytes(p), 82 + |p.parameters|;
            && |s| == a + 88 && s[..14] == PROPOSE_TAG && s[14..78] == p.programHash && BytesAt(s, 78, p.parameters)
            && s[a..a + 32] == p.from && s[a + 32..a + 64] == p.to && ValueBE(s[a + 64..a + 72]) == p.validFrom
            && ValueBE(s[a + 72..a + 80]) == p.validUntil && ValueBE(s[a + 80..a + 88]) == p.nonce
  {
    hide PushBytes, ToBE, ValueBE, BytesAt;
    var s, a := ProposeBytes(p), 82 + |p.parameters|;
    var r3 := ToBE(p.validUntil, 8) + ToBE(p.nonce, 8);
    var r2 := p.from + (p.to + (ToBE(p.validFrom, 8) + r3));
    Whole(s);
    Take(s, 0, PROPOSE_TAG, p.programHash + (PushBytes(p.parameters) + r2));
    Take(s, 14, p.programHash, PushBytes(p.parameters) + r2);
    TakeBytes(s, 78, p.parameters, r2);
    Take(s, a, p.from, p.to + (ToBE(p.validFrom, 8) + r3));
    Take(s, a + 32, p.to, ToBE(p.validFrom, 8) + r3);
    Take(s, a + 64, ToBE(p.validFrom, 8), r3);
    Take(s, a + 72, ToBE(p.validUntil, 8), ToBE(p.nonce, 8));
    TakeLast(s, a + 80, p.nonce);
    NumberBE(p.validFrom, 8);
    NumberBE(p.validUntil, 8);
  }

  lemma AcceptLayout(m: Accept)
    ensures var s := AcceptBytes(m);
            |s| == 85 && s[..13] == ACCEPT_TAG && s[13..45] == m.proposalHash && s[45..77] == m.party && ValueBE(s[77..85]) == m.acceptedAt
  {
    hide ToBE, ValueBE;
    var s := AcceptBytes(m);
    Whole(s);
    Take(s, 0, ACCEPT_TAG, m.proposalHash + (m.party + ToBE(m.acceptedAt, 8)));
    Take(s, 13, m.proposalHash, m.party + ToBE(m.acceptedAt, 8));
    Take(s, 45, m.party, ToBE(m.acceptedAt, 8));
    TakeLast(s, 77, m.acceptedAt);
  }

  lemma RejectLayout(m: Reject)
    requires |m.reason| < MAX_LEN
    ensures var s, a := RejectBytes(m), 81 + |m.reason|;
            && |s| == a + 8 && s[..13] == REJECT_TAG && s[13..45] == m.proposalHash && s[45..77] == m.party
            && BytesAt(s, 77, m.reason) && ValueBE(s[a..a + 8]) == m.rejectedAt
  {
    hide PushBytes, ToBE, ValueBE, BytesAt;
    var s := RejectBytes(m);
    var r := PushBytes(m.reason) + ToBE(m.rejectedAt, 8);
    Whole(s);
    Take(s, 0, REJECT_TAG, m.proposalHash + (m.party + r));
    Take(s, 13, m.proposalHash, m.party + r);
    Take(s, 45, m.party, r);
    TakeBytes(s, 77, m.reason, ToBE(m.rejectedAt, 8));
    TakeLast(s, 81 + |m.reason|, m.rejectedAt);
  }

  lemma CounterLayout(m: CounterPropose)
    requires |m.newParameters| < MAX_LEN
    ensures var s, a := CounterBytes(m), 50 + |m.newParameters|;
            && |s| == a + 40 && s[..14] == COUNTER_TAG && s[14..46] == m.originalHash && BytesAt(s, 46, m.newParameters)
            && s[a..a + 32] == m.party && ValueBE(s[a + 32..a + 40]) == m.nonce
  {
    hide PushBytes, ToBE, ValueBE, BytesAt;
    var s, a := CounterBytes(m), 50 + |m.newParameters|;
    var r := m.party + ToBE(m.nonce, 8);
    Whole(s);
    Take(s, 0, COUNTER_TAG, m.originalHash + (PushBytes(m.newParameters) + r));
    Take(s, 14, m.originalHash, PushBytes(m.newParameters) + r);
    TakeBytes(s, 46, m.newParameters, r);
    Take(s, a, m.party, ToBE(m.nonce, 8));
    TakeLast(s, a + 32, m.nonce);
  }

  /** Executes and disputes share a layout: evidence, then an output, then who and when. */
  lemma TwoFieldLayout(tag: Bytes, hash: Bytes32, x: Bytes, y: Bytes, key: PublicKey, at: u64)
    requires |tag| == 14 && |x| < MAX_LEN && |y| < MAX_LEN
    ensures var s, a, b := TwoField(tag, hash, x, y, key, at), 50 + |x|, 54 + |x| + |y|;
            && |s| == b + 40 && s[..14] == tag && s[14..46] == hash && BytesAt(s, 46, x) && BytesAt(s, a, y)
            && s[b..b + 32] == key && ValueBE(s[b + 32..b + 40]) == at
  {
    hide PushBytes, ToBE, ValueBE, BytesAt;
    var s, a, b := TwoField(tag, hash, x, y, key, at), 50 + |x|, 54 + |x| + |y|;
    var r := key + ToBE(at, 8);
    Whole(s);
    Take(s, 0, tag, hash + (PushBytes(x) + (PushBytes(y) + r)));
    Take(s, 14, hash, PushBytes(x) + (PushBytes(y) + r));
    TakeBytes(s, 46, x, PushBytes(y) + r);
    TakeBytes(s, a, y, r);
    Take(s, b, key, ToBE(at, 8));
    TakeLast(s, b + 32, at);
  }

  lemma ExecuteLayout(m: Execute)
    requires |m.evidence| < MAX_LEN && |m.expectedOutput| < MAX_LEN
    ensures var s, a, b := ExecuteBytes(m), 50 + |m.evidence|, 54 + |m.evidence| + |m.expectedOutput|;
            && |s| == b + 40 && s[..14] == EXECUTE_TAG && s[14..46] == m.proposalHash && BytesAt(s, 46, m.evidence)
            && BytesAt(s, a, m.expectedOutput) && s[b..b + 32] == m.party && ValueBE(s[b + 32..b + 40]) == m.executedAt
  {
    hide BytesAt;
    TwoFieldLayout(EXECUTE_TAG, m.proposalHash, m.evidence, m.expectedOutput, m.party, m.executedAt);
  }

  lemma DisputeLayout(m: Dispute)
    requires |m.evidence| < MAX_LEN && |m.claimedOutput| < MAX_LEN
    ensures var s, a, b := DisputeBytes(m), 50 + |m.evidence|, 54 + |m.evidence| + |m.claimedOutput|;
            && |s| == b + 40 && s[..14] == DISPUTE_TAG && s[14..46] == m.proposalHash && BytesAt(s, 46, m.evidence)
            && BytesAt(s, a, m.claimedOutput) && s[b..b + 32] == m.disputer && ValueBE(s[b + 32..b + 40]) == m.openedAt
  {
    hide BytesAt;
    TwoFieldLayout(DISPUTE_TAG, m.proposalHash, m.evidence, m.claimedOutput, m.disputer, m.openedAt);
  }

  // ----- policies -----

  /** The fixed part of a policy, and the number of its contracts. */
  lemma PolicyLayout(p: KeyPolicy)
    requires ShortPolicy(p)
    ensures var s := PolicyBytes(p);
            && |s| >= 125 && s[..17] == POLICY_TAG && s[17..49] == p.childPubkey && s[49..81] == p.parentPubkey
            && ValueBE(s[81..97]) == p.capPerWindow && ValueBE(s[97..105]) == p.windowSecs
            && ValueBE(s[105..113]) == p.expiryUnix && ValueBE(s[113..121]) == p.version
            && ValueBE(s[121..125]) == |p.allowedContracts|
  {
    hide ToBE, ValueBE, Names, Keys, PolicyHead;
    var s, head := PolicyBytes(p), PolicyHead(p);
    var count := ToBE(|p.allowedContracts|, 4);
    var r := Names(p.allowedContracts) + (ToBE(|p.allowedCounterparties| % MAX_LEN, 4) + Keys(p.allowedCounterparties));
    Whole(s);
    Take(s, 0, head, count + r);
    Take(s, 121, count, r);
    NumberBE(|p.allowedContracts|, 4);
    PolicyHeadLayout(p);
    assert forall i, j :: 0 <= i <= j <= 121 ==> s[i..j] == s[0..121][i..j];
  }

  lemma PolicyHeadLayout(p: KeyPolicy)
    ensures var s := PolicyHead(p);
            && s[..17] == POLICY_TAG && s[17..49] == p.childPubkey && s[49..81] == p.parentPubkey
            && ValueBE(s[81..97]) == p.capPerWindow && ValueBE(s[97..105]) == p.windowSecs
            && ValueBE(s[105..113]) == p.expiryUnix && ValueBE(s[113..121]) == p.version
  {
    hide ToBE, ValueBE;
    PolicySlices(POLICY_TAG, p.childPubkey, p.parentPubkey, ToBE(p.capPerWindow, 16),
                 ToBE(p.windowSecs, 8), ToBE(p.expiryUnix, 8), ToBE(p.version, 8));
    NumberBE(p.capPerWindow, 16);
    NumberBE(p.windowSecs, 8);
    NumberBE(p.expiryUnix, 8);
    NumberBE(p.version, 8);
  }

  // ----- packed weights -----

  /** The integers `l`, four or eight bytes each, stand at `i`. */
  ghost predicate NumbersAt(s: Bytes, i: nat, l: seq<nat>, n: nat) {
    && i + n * |l| <= |s|
    && forall k {:trigger l[k]} :: 0 <= k < |l| ==> 0 <= i + n * k <= i + n * k + n <= |s| && ValueBE(s[i + n * k..i + n * k + n]) == l[k]
  }

  lemma {:induction false} TakeNumbers(s: Bytes, i: nat, l: seq<nat>, n: nat, r: Bytes)
    requires i <= |s| && s[i..] == Weights.Numerals(l, n) + r
    requires (n == 4 && Weights.Below(l, MAX_LEN)) || (n == 8 && Weights.Below(l, TWO64))
    ensures NumbersAt(s, i, l, n) && i + n * |l| <= |s| && s[i + n * |l|..] == r
    decreases |l|
  {
    assert l != [] ==> Weights.Below(l[1..], if n == 4 then MAX_LEN else TWO64);
    hide ToBE, ValueBE, NumbersAt, Weights.Below;
    if l == [] {
      NoNumbers(s, i, n);
      assert Weights.Numerals(l, n) + r == r;
    } else {
      var tail := Weights.Numerals(l[1..], n);
      Assoc(ToBE(l[0], n), tail, r);
      Take(s, i, ToBE(l[0], n), tail + r);
      NumberBE(l[0], n);
      TakeNumbers(s, i + n, l[1..], n, r);
      assert n * |l| == n + n * |l[1..]|;
      OneMoreNumber(s, i, l, n);
    }
  }

  lemma NoNumbers(s: Bytes, i: nat, n: nat)
    requires i <= |s|
    ensures NumbersAt(s, i, [], n)
  {
  }

  lemma OneMoreNumber(s: Bytes, i: nat, l: seq<nat>, n: nat)
    requires l != [] && i + n <= |s| && ValueBE(s[i..i + n]) == l[0] && NumbersAt(s, i + n, l[1..], n)
    ensures NumbersAt(s, i, l, n)
  {
    hide ValueBE;
    assert n * |l| == n + n * |l[1..]|;
    forall k | 0 <= k < |l|
      ensures 0 <= i + n * k <= i + n * k + n <= |s| && ValueBE(s[i + n * k..i + n * k + n]) == l[k]
    {
      if k > 0 {
        assert l[1..][k - 1] == l[k] && n * k == n + n * (k - 1);
      }
    }
  }

  lemma LayerHead(w: Weights.Raw, s: Bytes, rest: Bytes)
    requires Weights.GoodRaw(w) && s == Weights.RawHead(w) + rest
    ensures |s| >= 25 && s[25..] == rest && ValueBE(s[0..4]) == w.inputDim && ValueBE(s[4..8]) == w.outputDim
    ensures s[8] == w.relu && ValueBE(s[9..17]) == |w.pos.cols| && ValueBE(s[17..25]) == |w.neg.cols|
  {
    hide Weights.RawHead, Weights.GoodRaw, ValueBE;
    Weights.RawHeadRead(w, rest);
  }

  /** One layer: dimensions, activation and counts, then pointers and columns of the positive rows, those of the negative rows, and the biases. */
  lemma LayerLayout(w: Weights.Raw)
    requires Weights.GoodRaw(w)
    ensures var s, p, q := Weights.RawBytes(w), 4 * |w.pos.ptrs|, 4 * |w.pos.cols|;
            var t, u := 4 * |w.neg.ptrs|, 4 * |w.neg.cols|;
            && |s| == 25 + p + q + t + u + 8 * |w.words| && ValueBE(s[0..4]) == w.inputDim && ValueBE(s[4..8]) == w.outputDim
            && s[8] == w.relu && ValueBE(s[9..17]) == |w.pos.cols| && ValueBE(s[17..25]) == |w.neg.cols|
            && NumbersAt(s, 25, w.pos.ptrs, 4) && NumbersAt(s, 25 + p, w.pos.cols, 4) && NumbersAt(s, 25 + p + q, w.neg.ptrs, 4)
            && NumbersAt(s, 25 + p + q + t, w.neg.cols, 4) && NumbersAt(s, 25 + p + q + t + u, w.words, 8)
  {
    hide Weights.Numerals, Weights.RawHead, Weights.Below, ToBE, ValueBE, NumbersAt;
    assert Weights.Below(w.pos.ptrs, MAX_LEN) && Weights.Below(w.pos.cols, MAX_LEN) && Weights.Below(w.neg.ptrs, MAX_LEN);
    assert Weights.Below(w.neg.cols, MAX_LEN) && Weights.Below(w.words, TWO64);
    var s, p, q := Weights.RawBytes(w), 4 * |w.pos.ptrs|, 4 * |w.pos.cols|;
    var t, u := 4 * |w.neg.ptrs|, 4 * |w.neg.cols|;
    var a, b := Weights.Numerals(w.pos.ptrs, 4), Weights.Numerals(w.pos.cols, 4);
    var c, d, e := Weights.Numerals(w.neg.ptrs, 4), Weights.Numerals(w.neg.cols, 4), Weights.Numerals(w.words, 8);
    Chain(Weights.RawHead(w), a, b, c, d, e);
    LayerHead(w, s, a + (b + (c + (d + (e + [])))));
    hide Weights.GoodRaw, Weights.RawBytes;
    TakeNumbers(s, 25, w.pos.ptrs, 4, b + (c + (d + (e + []))));
    TakeNumbers(s, 25 + p, w.pos.cols, 4, c + (d + (e + [])));
    TakeNumbers(s, 25 + p + q, w.neg.ptrs, 4, d + (e + []));
    TakeNumbers(s, 25 + p + q + t, w.neg.cols, 4, e + []);
    TakeNumbers(s, 25 + p + q + t + u, w.words, 8, []);
  }

  lemma Chain(h: Bytes, a: Bytes, b: Bytes, c: Bytes, d: Bytes, e: Bytes)
    ensures h + (a + b) + (c + d) + e == h + (a + (b + (c + (d + (e + [])))))
  {
    assert e + [] == e;
    Assoc(h + (a + b), c + d, e);
    Assoc(c, d, e);
    Assoc(h, a + b, c + (d + e));
    Assoc(a, b, c + (d + e));
  }

  /** The file before its layers: magic, version, name with its length, and three counts, integers big-endian. */
  lemma FileLayout(f: WeightFormat.File)
    requires WeightFormat.GoodFile(f)
    ensures var s, n := WeightFormat.FileBytes(f), 14 + |f.name|;
            && |s| >= n + 12 && s[..8] == Weights.MAGIC && ValueBE(s[8..12]) == f.version && ValueBE(s[12..14]) == |f.name|
            && s[14..n] == f.name && ValueBE(s[n..n + 4]) == f.inputDim && ValueBE(s[n + 4..n + 8]) == f.outputDim
            && ValueBE(s[n + 8..n + 12]) == f.count && s[n + 12..] == WeightFormat.RawsBytes(f.raws) + f.trail
  {
    hide ToBE, ValueBE, WeightFormat.RawsBytes, WeightFormat.Counts, Weights.GoodRaw;
    var s, n, rest := WeightFormat.FileBytes(f), 14 + |f.name|, WeightFormat.RawsBytes(f.raws) + f.trail;
    var t := WeightFormat.Counts(f.inputDim, f.outputDim, f.count) + rest;
    Weights.PreludeSlices(Weights.MAGIC, ToBE(f.version, 4), ToBE(|f.name|, 2), f.name, t);
    Weights.FieldValue(f.version, 4);
    Weights.FieldValue(|f.name|, 2);
    WeightFormat.CountsMean(f.inputDim, f.outputDim, f.count, rest);
    assert s[n..n + 4] == t[0..4] && s[n + 4..n + 8] == t[4..8] && s[n + 8..n + 12] == t[8..12] && s[n + 12..] == t[12..];
  }

  /** A bias is written in two's complement. */
  lemma TwosComplement(b: Network.i64)
    ensures Weights.Word(b) < TWO64 && (Weights.Word(b) - b) % TWO64 == 0
  {
  }
}
