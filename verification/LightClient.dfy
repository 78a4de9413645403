/**
 The light client (light_client/src/lib.rs, header.rs): a list of signed headers and a
 Merkle proof are turned into a balance.
 */
module LightClient {
  import opened Bytes
  import opened Hashing
  import opened Encodings
  import opened SparseMerkle
  import opened AccountRecord
  import Ledger

  datatype Verdict =
    | Verified(balance: nat)
    | GenesisMismatch
    | HeaderChainBroken(at: nat)
    | InvalidSignature(blockN: u64)
    | ProofFailed

  /** Signed, by the expected key. */
  predicate Signed(ver: Verifier, signer: PublicKey, s: SignedHeader) {
    s.header.sequencerPubkey == signer && ver(signer, HeaderBytes(s.header), s.signature)
  }

  /** Header `i` names its predecessor, or the genesis root when it has none. */
  predicate LinkedAt(h: HashFn, genesis: Hash, headers: seq<SignedHeader>, i: nat)
    requires i < |headers|
  {
    if i == 0 then headers[0].header.prevStateRoot == genesis
    else headers[i].header.parentHash == h(FullHeaderBytes(headers[i - 1]))
  }

  predicate GoodAt(h: HashFn, ver: Verifier, signer: PublicKey, genesis: Hash, headers: seq<SignedHeader>, i: nat)
    requires i < |headers|
  {
    LinkedAt(h, genesis, headers, i) && Signed(ver, signer, headers[i])
  }

  /** The first `n` headers are linked and signed. */
  predicate GoodPrefix(h: HashFn, ver: Verifier, signer: PublicKey, genesis: Hash, headers: seq<SignedHeader>, n: nat)
    requires n <= |headers|
  {
    forall i: nat | i < n :: GoodAt(h, ver, signer, genesis, headers, i)
  }

  predicate GoodChain(h: HashFn, ver: Verifier, signer: PublicKey, genesis: Hash, headers: seq<SignedHeader>) {
    headers != [] && GoodPrefix(h, ver, signer, genesis, headers, |headers|)
  }

  function HeadRoot(headers: seq<SignedHeader>): Hash
    requires headers != []
  {
    headers[|headers| - 1].header.newStateRoot
  }

  /** The balance in a proof's value; a value that is not a record reads as zero. */
  function ReadBalance(value: Bytes): nat {
    if |value| == 64 then Balance(value) else 0
  }

  /** Header `i` is the first that is not linked (`link`) or not signed (`!link`). */
  ghost predicate FirstFault(h: HashFn, ver: Verifier, signer: PublicKey, genesis: Hash, headers: seq<SignedHeader>, i: nat, link: bool) {
    && i < |headers| && GoodPrefix(h, ver, signer, genesis, headers, i)
    && (if link then !LinkedAt(h, genesis, headers, i)
        else LinkedAt(h, genesis, headers, i) && !Signed(ver, signer, headers[i]))
  }

  function PrevHash(h: HashFn, headers: seq<SignedHeader>, i: nat): Option<Hash>
    requires i <= |headers|
  {
    if i == 0 then None else Some(h(FullHeaderBytes(headers[i - 1])))
  }

  method VerifyHeader(ver: Verifier, s: SignedHeader, expected: PublicKey) returns (ok: bool)
    ensures ok == Signed(ver, expected, s)
  {
    if s.header.sequencerPubkey != expected {
      return false;
    }
    ok := ver(s.header.sequencerPubkey, HeaderBytes(s.header), s.signature);
  }

  /** What each verdict says about the input; between them they leave no freedom. */
  ghost predicate Explains(h: HashFn, ver: Verifier, genesis: Hash, headers: seq<SignedHeader>, signer: PublicKey,
                           key: PublicKey, proof: MerkleProof, v: Verdict)
  {
    match v
    case Verified(balance) =>
      && GoodChain(h, ver, signer, genesis, headers) && Verifies(h, HeadRoot(headers), key, proof)
      && balance == ReadBalance(proof.value)
    case ProofFailed => GoodChain(h, ver, signer, genesis, headers) && !Verifies(h, HeadRoot(headers), key, proof)
    case GenesisMismatch => FirstFault(h, ver, signer, genesis, headers, 0, true)
    case HeaderChainBroken(at) => if at == 0 then headers == [] else FirstFault(h, ver, signer, genesis, headers, at, true)
    case InvalidSignature(n) =>
      exists i: nat :: FirstFault(h, ver, signer, genesis, headers, i, false) && n == headers[i].header.blockN
  }

  lemma FaultIsUnique(h: HashFn, ver: Verifier, signer: PublicKey, genesis: Hash, headers: seq<SignedHeader>,
                      i: nat, link: bool, j: nat, link': bool)
    requires FirstFault(h, ver, signer, genesis, headers, i, link) && FirstFault(h, ver, signer, genesis, headers, j, link')
    ensures i == j && link == link' && !GoodChain(h, ver, signer, genesis, headers)
  {
    assert !GoodAt(h, ver, signer, genesis, headers, i) && !GoodAt(h, ver, signer, genesis, headers, j);
  }

  /** Every input has at most one verdict. */
  lemma VerdictIsUnique(h: HashFn, ver: Verifier, genesis: Hash, headers: seq<SignedHeader>, signer: PublicKey,
                        key: PublicKey, proof: MerkleProof, v: Verdict, w: Verdict)
    requires Explains(h, ver, genesis, headers, signer, key, proof, v)
    requires Explains(h, ver, genesis, headers, signer, key, proof, w)
    ensures v == w
  {
    var i, link := FaultOf(h, ver, genesis, headers, signer, key, proof, v);
    var j, link' := FaultOf(h, ver, genesis, headers, signer, key, proof, w);
    if headers != [] && !v.Verified? && !v.ProofFailed? {
      FaultIsUnique(h, ver, signer, genesis, headers, i, link, i, link);
      if !w.Verified? && !w.ProofFailed? {
        FaultIsUnique(h, ver, signer, genesis, headers, i, link, j, link');
      }
    } else if headers != [] && !w.Verified? && !w.ProofFailed? {
      FaultIsUnique(h, ver, signer, genesis, headers, j, link', j, link');
    }
  }

  /** The fault a verdict reports. */
  lemma FaultOf(h: HashFn, ver: Verifier, genesis: Hash, headers: seq<SignedHeader>, signer: PublicKey,
                key: PublicKey, proof: MerkleProof, v: Verdict) returns (i: nat, link: bool)
    requires Explains(h, ver, genesis, headers, signer, key, proof, v)
    ensures headers != [] && !v.Verified? && !v.ProofFailed? ==>
              && FirstFault(h, ver, signer, genesis, headers, i, link)
              && v == if !link then InvalidSignature(headers[i].header.blockN)
                      else if i == 0 then GenesisMismatch else HeaderChainBroken(i)
  {
    match v
    case GenesisMismatch => i, link := 0, true;
    case HeaderChainBroken(at) => i, link := at, true;
    case InvalidSignature(n) =>
      i :| FirstFault(h, ver, signer, genesis, headers, i, false) && n == headers[i].header.blockN;
      link := false;
    case _ => i, link := 0, false;
  }

  method VerifyBalance(h: HashFn, ver: Verifier, genesis: Hash, headers: seq<SignedHeader>, signer: PublicKey,
                       key: PublicKey, proof: MerkleProof)
    returns (v: Verdict)
    ensures Explains(h, ver, genesis, headers, signer, key, proof, v)
  {
    if headers == [] {
      return HeaderChainBroken(0);
    }
    var prevHash: Option<Hash> := None;
    for i := 0 to |headers|
      invariant GoodPrefix(h, ver, signer, genesis, headers, i)
      invariant prevHash == PrevHash(h, headers, i)
    {
      var s := headers[i];
      if prevHash.Some? {
        if s.header.parentHash != prevHash.value {
          return HeaderChainBroken(i);
        }
      } else if s.header.prevStateRoot != genesis {
        return GenesisMismatch;
      }
      var signed := VerifyHeader(ver, s, signer);
      if !signed {
        assert FirstFault(h, ver, signer, genesis, headers, i, false);
        return InvalidSignature(s.header.blockN);
      }
      prevHash := Some(h(FullHeaderBytes(s)));
    }
    var ok := SparseMerkleTree.VerifyProof(h, 32, headers[|headers| - 1].header.newStateRoot, key, proof);
    v := if ok then Verified(ReadBalance(proof.value)) else ProofFailed;
  }

  // ----- what an accepted balance means -----

  lemma WellKeyedIsWellFormed(m: Ledger.Accounts)
    requires Ledger.WellKeyed(m)
    ensures WellFormed(m, 32)
  {
  }

  /** What a ledger stores for a key reads back as that account's balance, for absent keys too. */
  lemma StoredBalance(m: Ledger.Accounts, key: PublicKey)
    requires Ledger.WellKeyed(m)
    ensures ReadBalance(Lookup(m, key)) == Balance(Ledger.AccountOf(m, key))
  {
    Ledger.BalanceOfAccount(m, key);
  }

  /** The pair of strings at which a proof of a wrong balance collides with the honest one. */
  ghost function ForgedPair(h: HashFn, m: Ledger.Accounts, key: PublicKey, proof: MerkleProof): (Bytes, Bytes)
    requires |proof.siblings| == 256
  {
    ClimbCollision(h, key, proof, HonestProof(h, m, key), 0)
  }

  /** Sound: under a ledger's root, a proof that verifies carries that ledger's balance, or a collision. */
  lemma AcceptedBalance(h: HashFn, m: Ledger.Accounts, key: PublicKey, proof: MerkleProof)
    requires Ledger.WellKeyed(m) && Verifies(h, MerkleRoot(h, 32, m), key, proof)
    ensures ReadBalance(proof.value) == Balance(Ledger.AccountOf(m, key))
         || var c := ForgedPair(h, m, key, proof); Collision(h, c.0, c.1)
  {
    WellKeyedIsWellFormed(m);
    ProofSound(h, 32, m, key, proof);
    StoredBalance(m, key);
  }

  /** Complete: a linked and signed list under a ledger's root, with the honest proof, is accepted. */
  lemma HonestIsAccepted(h: HashFn, ver: Verifier, genesis: Hash, headers: seq<SignedHeader>, signer: PublicKey,
                         m: Ledger.Accounts, key: PublicKey)
    requires Ledger.WellKeyed(m) && GoodChain(h, ver, signer, genesis, headers) && HeadRoot(headers) == MerkleRoot(h, 32, m)
    ensures Verifies(h, HeadRoot(headers), key, HonestProof(h, m, key))
    ensures ReadBalance(HonestProof(h, m, key).value) == Balance(Ledger.AccountOf(m, key))
  {
    WellKeyedIsWellFormed(m);
    HonestProofVerifies(h, 32, m, key);
    StoredBalance(m, key);
  }

  // ----- what the head of a chain commits to -----

  /** Walking back from equal heads, the first pair of different headers with one hash. */
  function ChainCollision(s: seq<SignedHeader>, t: seq<SignedHeader>): (Bytes, Bytes)
    requires |s| == |t|
  {
    if s == [] then ([], [])
    else if s[|s| - 1] != t[|t| - 1] then (FullHeaderBytes(s[|s| - 1]), FullHeaderBytes(t[|t| - 1]))
    else ChainCollision(s[..|s| - 1], t[..|t| - 1])
  }

  ghost predicate Linked(h: HashFn, s: seq<SignedHeader>) {
    forall i :: 0 < i < |s| ==> s[i].header.parentHash == h(FullHeaderBytes(s[i - 1]))
  }

  /** Two linked lists of one length whose last headers hash alike are the same list, or headers collide. */
  lemma {:induction false} HeadCommits(h: HashFn, s: seq<SignedHeader>, t: seq<SignedHeader>)
    requires |s| == |t| && Linked(h, s) && Linked(h, t)
    requires s != [] ==> h(FullHeaderBytes(s[|s| - 1])) == h(FullHeaderBytes(t[|t| - 1]))
    ensures s == t || var c := ChainCollision(s, t); Collision(h, c.0, c.1)
    decreases |s|
  {
    if s != [] {
      var x, y := s[|s| - 1], t[|t| - 1];
      if x != y {
        if FullHeaderBytes(x) == FullHeaderBytes(y) {
          FullHeaderInjective(x, y);
        }
      } else {
        HeadCommits(h, s[..|s| - 1], t[..|t| - 1]);
        assert s == s[..|s| - 1] + [x] && t == t[..|t| - 1] + [y];
      }
    }
  }

  lemma GoodChainIsLinked(h: HashFn, ver: Verifier, signer: PublicKey, genesis: Hash, s: seq<SignedHeader>)
    requires GoodChain(h, ver, signer, genesis, s)
    ensures Linked(h, s)
  {
    forall i | 0 < i < |s|
      ensures s[i].header.parentHash == h(FullHeaderBytes(s[i - 1]))
    {
      assert GoodAt(h, ver, signer, genesis, s, i);
    }
  }

  /**
   Two lists that a light client accepts, whatever signer, genesis and account each was
   checked for, whose last headers hash alike: the shorter is the end of the longer, or two
   headers collide.
   */
  lemma AcceptedListsAgree(h: HashFn, ver: Verifier, genesis: Hash, s: seq<SignedHeader>, signer: PublicKey, key: PublicKey,
                           proof: MerkleProof, v: Verdict, genesis': Hash, t: seq<SignedHeader>, signer': PublicKey,
                           key': PublicKey, proof': MerkleProof, v': Verdict)
    requires Explains(h, ver, genesis, s, signer, key, proof, v) && v.Verified?
    requires Explains(h, ver, genesis', t, signer', key', proof', v') && v'.Verified?
    requires |s| <= |t| && h(FullHeaderBytes(s[|s| - 1])) == h(FullHeaderBytes(t[|t| - 1]))
    ensures s == t[|t| - |s|..] || var c := ChainCollision(s, t[|t| - |s|..]); Collision(h, c.0, c.1)
  {
    GoodChainIsLinked(h, ver, signer, genesis, s);
    GoodChainIsLinked(h, ver, signer', genesis', t);
    HeadCommits(h, s, t[|t| - |s|..]);
  }
}
