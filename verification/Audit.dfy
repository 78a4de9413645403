/**
 What a chain of headers proves (light_client/src/lib.rs, sequencer/src/node.rs): which lists
 a light client accepts, at which block of a node they can start, and what the hashes in a
 header say about the block.
 */
module Audit {
  import opened Bytes
  import opened Hashing
  import opened Encodings
  import opened SparseMerkle
  import opened AccountRecord
  import Ledger
  import LightClient
  import Node

  // ----- what acceptance means -----

  /** Signed by the expected key throughout, linked by hashes, and begun at the genesis root. */
  ghost predicate Acceptable(h: HashFn, ver: Verifier, genesis: Hash, headers: seq<SignedHeader>, signer: PublicKey) {
    && headers != [] && headers[0].header.prevStateRoot == genesis
    && (forall i :: 0 < i < |headers| ==> headers[i].header.parentHash == h(FullHeaderBytes(headers[i - 1])))
    && (forall i :: 0 <= i < |headers| ==>
          headers[i].header.sequencerPubkey == signer && ver(signer, HeaderBytes(headers[i].header), headers[i].signature))
  }

  lemma ChainExactly(h: HashFn, ver: Verifier, genesis: Hash, headers: seq<SignedHeader>, signer: PublicKey)
    ensures LightClient.GoodChain(h, ver, signer, genesis, headers) <==> Acceptable(h, ver, genesis, headers, signer)
  {
    hide HeaderBytes, FullHeaderBytes;
    if LightClient.GoodChain(h, ver, signer, genesis, headers) {
      forall i: nat | i < |headers|
        ensures LightClient.LinkedAt(h, genesis, headers, i) && LightClient.Signed(ver, signer, headers[i])
      {
        assert LightClient.GoodAt(h, ver, signer, genesis, headers, i);
      }
    }
  }

  /** A balance is returned exactly for acceptable lists with a proof under the last root, and is the one in the proof. */
  lemma AcceptedExactly(h: HashFn, ver: Verifier, genesis: Hash, headers: seq<SignedHeader>, signer: PublicKey,
                        key: PublicKey, proof: MerkleProof, balance: nat)
    ensures LightClient.Explains(h, ver, genesis, headers, signer, key, proof, LightClient.Verified(balance))
       <==> && Acceptable(h, ver, genesis, headers, signer)
            && Verifies(h, headers[|headers| - 1].header.newStateRoot, key, proof)
            && balance == if |proof.value| == 64 then ValueLE(proof.value[32..48]) % TWO127 else 0
  {
    hide Acceptable, Verifies, LightClient.GoodChain, ValueLE;
    ChainExactly(h, ver, genesis, headers, signer);
    assert LightClient.GoodChain(h, ver, signer, genesis, headers) ==> headers != [] by {
      NotEmpty(h, ver, genesis, headers, signer);
    }
  }

  lemma NotEmpty(h: HashFn, ver: Verifier, genesis: Hash, headers: seq<SignedHeader>, signer: PublicKey)
    ensures LightClient.GoodChain(h, ver, signer, genesis, headers) ==> headers != []
  {
  }

  /** A list that begins at another root is refused for that, whatever else it holds. */
  lemma OtherGenesisRefused(h: HashFn, ver: Verifier, genesis: Hash, headers: seq<SignedHeader>, signer: PublicKey,
                            key: PublicKey, proof: MerkleProof)
    ensures LightClient.Explains(h, ver, genesis, headers, signer, key, proof, LightClient.GenesisMismatch)
       <==> headers != [] && headers[0].header.prevStateRoot != genesis
  {
  }

  // ----- where an accepted list can start -----

  /** The list is the piece of the chain from block `s` on, up to the signature of its last header. */
  ghost predicate PieceAt(chain: seq<SignedHeader>, headers: seq<SignedHeader>, s: nat) {
    var n := |headers|;
    && 0 < n && s + n <= |chain| && headers[n - 1].header == chain[s + n - 1].header
    && forall j :: 0 <= j < n - 1 ==> headers[j] == chain[s + j]
  }

  ghost predicate HeadersCollide(h: HashFn, chain: seq<SignedHeader>, headers: seq<SignedHeader>) {
    exists j, c :: 0 <= j < |headers| && 0 <= c < |chain| && Collision(h, FullHeaderBytes(headers[j]), FullHeaderBytes(chain[c]))
  }

  /** A header hashes to the parent that a first header names. */
  ghost predicate HashesToZero(h: HashFn, headers: seq<SignedHeader>) {
    exists j :: 0 <= j < |headers| && h(FullHeaderBytes(headers[j])) == Zeros(32)
  }

  lemma {:induction false} WalkBack(h: HashFn, chain: seq<SignedHeader>, headers: seq<SignedHeader>, i: nat)
    requires headers != [] && i < |chain| && headers[|headers| - 1].header == chain[i].header
    requires LightClient.Linked(h, chain) && LightClient.Linked(h, headers) && chain[0].header.parentHash == Zeros(32)
    ensures || HashesToZero(h, headers) || HeadersCollide(h, chain, headers)
            || (|headers| <= i + 1 && PieceAt(chain, headers, i + 1 - |headers|))
    decreases |headers|
  {
    hide FullHeaderBytes;
    var m := |headers| - 1;
    if m > 0 {
      var parent, rest := headers[m - 1], headers[..m];
      assert headers[m].header.parentHash == h(FullHeaderBytes(parent));
      if i > 0 && parent == chain[i - 1] {
        WalkBack(h, chain, rest, i - 1);
        FaultStays(h, chain, headers, m);
        if !HashesToZero(h, rest) && !HeadersCollide(h, chain, rest) {
          Longer(chain, headers, i - m);
        }
      } else if i > 0 {
        assert chain[i].header.parentHash == h(FullHeaderBytes(chain[i - 1]));
        if FullHeaderBytes(parent) == FullHeaderBytes(chain[i - 1]) {
          FullHeaderInjective(parent, chain[i - 1]);
        }
        assert HeadersCollide(h, chain, headers);
      }
    }
  }

  lemma FaultStays(h: HashFn, chain: seq<SignedHeader>, headers: seq<SignedHeader>, m: nat)
    requires m <= |headers|
    ensures HashesToZero(h, headers[..m]) ==> HashesToZero(h, headers)
    ensures HeadersCollide(h, chain, headers[..m]) ==> HeadersCollide(h, chain, headers)
  {
    hide FullHeaderBytes, Collision;
    if HashesToZero(h, headers[..m]) {
      var j :| 0 <= j < m && h(FullHeaderBytes(headers[..m][j])) == Zeros(32);
      assert headers[..m][j] == headers[j];
    }
    if HeadersCollide(h, chain, headers[..m]) {
      var j, c :| 0 <= j < m && 0 <= c < |chain| && Collision(h, FullHeaderBytes(headers[..m][j]), FullHeaderBytes(chain[c]));
      assert headers[..m][j] == headers[j];
    }
  }

  lemma Longer(chain: seq<SignedHeader>, headers: seq<SignedHeader>, s: nat)
    requires |headers| > 1 && PieceAt(chain, headers[..|headers| - 1], s) && s + |headers| <= |chain|
    requires headers[|headers| - 2] == chain[s + |headers| - 2] && headers[|headers| - 1].header == chain[s + |headers| - 1].header
    ensures PieceAt(chain, headers, s)
  {
    var m := |headers| - 1;
    assert forall j :: 0 <= j < m ==> headers[..m][j] == headers[j];
  }

  // ----- the record of a node -----

  /** What a node has published, with the blocks behind it and the strings it hashed. */
  datatype Archive = Archive(h: HashFn, ver: Verifier, pk: PublicKey, chain: seq<SignedHeader>, history: seq<Node.BlockRecord>, hashed: set<Bytes>)

  ghost predicate Kept(a: Archive) {
    Node.Recorded(a.h, a.ver, a.pk, Node.Last(a.chain), a.chain, a.history, a.hashed)
  }

  ghost function ArchiveOf(n: Node.SequencerNode): Archive
    reads n, n.state, n.state.accounts
  {
    Archive(n.state.accounts.h, n.ver, n.pk, n.chain, n.history, n.state.accounts.hashed)
  }

  /** At all times, the archive of a node is kept. */
  lemma NodeKeeps(n: Node.SequencerNode)
    requires n.Valid()
    ensures Kept(ArchiveOf(n))
  {
    hide Node.Recorded;
    LastIsLast(n.state.accounts.h, n.ver, n.pk, n.lastHeader, n.chain, n.history, n.state.accounts.hashed);
  }

  lemma LastIsLast(h: HashFn, ver: Verifier, pk: PublicKey, last: Option<SignedHeader>, chain: seq<SignedHeader>,
                   history: seq<Node.BlockRecord>, hashed: set<Bytes>)
    requires Node.Recorded(h, ver, pk, last, chain, history, hashed)
    ensures last == Node.Last(chain)
  {
  }

  lemma ArchiveLinks(a: Archive)
    requires Kept(a)
    ensures |a.history| == |a.chain|
    ensures a.chain != [] ==> LightClient.Linked(a.h, a.chain) && a.chain[0].header.parentHash == Zeros(32)
    ensures a.chain != [] ==> LightClient.GoodChain(a.h, a.ver, a.pk, Node.Genesis(a.chain), a.chain)
    ensures forall i :: 0 <= i < |a.chain| ==> Node.Executes(a.h, a.history[i], a.chain[i].header)
  {
    hide LightClient.GoodChain, Node.Executes, FullHeaderBytes, NoCollision;
    if a.chain != [] {
      LightClient.GoodChainIsLinked(a.h, a.ver, a.pk, Node.Genesis(a.chain), a.chain);
    }
  }

  lemma ArchiveCommits(a: Archive, i: nat)
    requires Kept(a) && NoCollision(a.h, a.hashed) && i < |a.chain|
    ensures i < |a.history|
    ensures a.chain[i].header.prevStateRoot == MerkleRoot(a.h, 32, a.history[i].before)
    ensures a.chain[i].header.newStateRoot == MerkleRoot(a.h, 32, a.history[i].after)
    ensures Ledger.WellKeyed(a.history[i].before) && Ledger.WellKeyed(a.history[i].after)
    ensures Node.Commits(a.h, a.chain[i].header.newStateRoot, a.history[i].after, a.hashed)
  {
    hide MerkleRoot, Covered, LeavesCovered, LightClient.GoodChain, Ledger.WellKeyed, NoCollision;
    assert Node.Executes(a.h, a.history[i], a.chain[i].header);
  }

  /**
   A list accepted from a node is a piece of the node's chain that starts at a block which
   found the client's genesis root; or two headers collide, or one hashes to zero.
   */
  lemma AcceptedIsPiece(a: Archive, genesis: Hash, headers: seq<SignedHeader>, key: PublicKey, proof: MerkleProof, balance: nat)
    returns (s: nat)
    requires Kept(a) && (headers != [] ==> Node.Genuine(a.ver, a.pk, a.chain, headers[|headers| - 1]))
    requires LightClient.Explains(a.h, a.ver, genesis, headers, a.pk, key, proof, LightClient.Verified(balance))
    ensures || HashesToZero(a.h, headers) || HeadersCollide(a.h, a.chain, headers)
            || (PieceAt(a.chain, headers, s) && a.chain[s].header.prevStateRoot == genesis)
  {
    hide FullHeaderBytes, Verifies, HeaderBytes, Kept, HashesToZero, HeadersCollide, LightClient.Explains;
    AcceptedExactly(a.h, a.ver, genesis, headers, a.pk, key, proof, balance);
    var last := headers[|headers| - 1];
    var i :| 0 <= i < |a.chain| && HeaderBytes(last.header) == HeaderBytes(a.chain[i].header);
    HeaderInjective(last.header, a.chain[i].header);
    ArchiveLinks(a);
    WalkBack(a.h, a.chain, headers, i);
    s := if |headers| <= i + 1 then i + 1 - |headers| else 0;
  }

  /** The proof collides with the honest one at a computed pair. */
  ghost predicate Forges(h: HashFn, m: Ledger.Accounts, key: PublicKey, proof: MerkleProof) {
    |proof.siblings| == 256 && var c := LightClient.ForgedPair(h, m, key, proof); Collision(h, c.0, c.1)
  }

  /**
   Whatever headers and proof a light client is handed, an accepted balance is the one the
   node stored at one of its completed blocks, namely the block the last header is of.
   */
  lemma AcceptedWasStored(a: Archive, genesis: Hash, headers: seq<SignedHeader>, key: PublicKey, proof: MerkleProof, balance: nat)
    returns (i: nat)
    requires Kept(a) && NoCollision(a.h, a.hashed) && (headers != [] ==> Node.Genuine(a.ver, a.pk, a.chain, headers[|headers| - 1]))
    requires LightClient.Explains(a.h, a.ver, genesis, headers, a.pk, key, proof, LightClient.Verified(balance))
    ensures i < |a.chain| == |a.history| && headers != [] && headers[|headers| - 1].header == a.chain[i].header
    ensures balance == Balance(Ledger.AccountOf(a.history[i].after, key)) || Forges(a.h, a.history[i].after, key, proof)
  {
    hide FullHeaderBytes, HeaderBytes, Kept, MerkleRoot, Balance, Ledger.AccountOf, Ledger.WellKeyed, NoCollision, Node.Commits;
    var last := headers[|headers| - 1];
    AcceptedExactly(a.h, a.ver, genesis, headers, a.pk, key, proof, balance);
    i :| 0 <= i < |a.chain| && HeaderBytes(last.header) == HeaderBytes(a.chain[i].header);
    HeaderInjective(last.header, a.chain[i].header);
    ArchiveLinks(a);
    ArchiveCommits(a, i);
    LightClient.AcceptedBalance(a.h, a.history[i].after, key, proof);
  }

  /** What a node's trees hold now is committed to by strings it hashed. */
  lemma PresentCommits(n: Node.SequencerNode)
    requires n.Valid() && NoCollision(n.state.accounts.h, n.state.accounts.hashed)
    ensures Ledger.WellKeyed(n.book.accounts)
    ensures Node.Commits(n.state.accounts.h, MerkleRoot(n.state.accounts.h, 32, n.book.accounts), n.book.accounts, n.state.accounts.hashed)
  {
    hide Node.Recorded, NoCollision, Covered, LeavesCovered, Ledger.WellKeyed;
    Node.TreeCommits(n.state.accounts);
  }

  /**
   The node's own headers, with the proof of the present accounts, are accepted with the
   present balance exactly when the accounts are those that the last completed block left.
   */
  lemma OwnChainIsAccepted(a: Archive, m: Ledger.Accounts, key: PublicKey)
    requires Kept(a) && NoCollision(a.h, a.hashed) && a.chain != [] && Ledger.WellKeyed(m)
    requires Node.Commits(a.h, MerkleRoot(a.h, 32, m), m, a.hashed)
    ensures |a.history| == |a.chain|
    ensures LightClient.Explains(a.h, a.ver, Node.Genesis(a.chain), a.chain, a.pk, key, HonestProof(a.h, m, key),
                                 LightClient.Verified(Balance(Ledger.AccountOf(m, key))))
            <==> m == a.history[|a.chain| - 1].after
  {
    hide Kept, MerkleRoot, HonestProof, Balance, Ledger.AccountOf, Ledger.WellKeyed, LightClient.GoodChain, Covered, LeavesCovered;
    hide Node.Executes, Verifies;
    var last := |a.chain| - 1;
    ArchiveLinks(a);
    ArchiveCommits(a, last);
    var after := a.history[last].after;
    if m == after {
      HonestExactly(a.h, a.ver, Node.Genesis(a.chain), a.chain, a.pk, m, key);
    } else if Verifies(a.h, a.chain[last].header.newStateRoot, key, HonestProof(a.h, m, key)) {
      LightClient.WellKeyedIsWellFormed(m);
      LightClient.WellKeyedIsWellFormed(after);
      HonestProofVerifies(a.h, 32, m, key);
      OneRoot(a.h, a.chain[last].header.newStateRoot, MerkleRoot(a.h, 32, m), key, HonestProof(a.h, m, key));
      RootDeterminesMap(a.h, 32, m, after, a.hashed);
    }
  }

  lemma OneRoot(h: HashFn, root: Hash, root': Hash, key: Key, proof: MerkleProof)
    requires Verifies(h, root, key, proof) && Verifies(h, root', key, proof)
    ensures root == root'
  {
  }

  /** The honest proofs of the key under two accounts maps collide. */
  ghost predicate RootsCollide(h: HashFn, m: Ledger.Accounts, m': Ledger.Accounts, key: Key) {
    |key| == 32 && var c := ClimbCollision(h, key, HonestProof(h, m, key), HonestProof(h, m', key), 0); Collision(h, c.0, c.1)
  }

  lemma SameRoot(h: HashFn, m: Ledger.Accounts, m': Ledger.Accounts) returns (key: Key)
    requires Ledger.WellKeyed(m) && Ledger.WellKeyed(m') && MerkleRoot(h, 32, m) == MerkleRoot(h, 32, m')
    ensures m == m' || RootsCollide(h, m, m', key)
  {
    hide MerkleRoot;
    LightClient.WellKeyedIsWellFormed(m);
    LightClient.WellKeyedIsWellFormed(m');
    key := Zeros(32);
    if m != m' {
      key := RootBinding(h, 32, m, m');
    }
  }

  /** The accounts found by the block at which an accepted list starts are those of the client's genesis, or hashed strings collide. */
  lemma AcceptedStartsAt(a: Archive, genesis: Ledger.Accounts, s: nat) returns (key: Key)
    requires Kept(a) && NoCollision(a.h, a.hashed) && s < |a.chain| && Ledger.WellKeyed(genesis)
    requires a.chain[s].header.prevStateRoot == MerkleRoot(a.h, 32, genesis)
    ensures s < |a.history| && (a.history[s].before == genesis || RootsCollide(a.h, a.history[s].before, genesis, key))
  {
    hide MerkleRoot, Kept, NoCollision, Ledger.WellKeyed, RootsCollide, Node.Commits;
    ArchiveCommits(a, s);
    key := SameRoot(a.h, a.history[s].before, genesis);
  }

  /** With the honest proof under the last root, acceptance depends on the list alone. */
  lemma HonestExactly(h: HashFn, ver: Verifier, genesis: Hash, headers: seq<SignedHeader>, signer: PublicKey,
                      m: Ledger.Accounts, key: PublicKey)
    requires Ledger.WellKeyed(m) && headers != [] && LightClient.HeadRoot(headers) == MerkleRoot(h, 32, m)
    ensures LightClient.Explains(h, ver, genesis, headers, signer, key, HonestProof(h, m, key),
                                 LightClient.Verified(Balance(Ledger.AccountOf(m, key))))
            <==> LightClient.GoodChain(h, ver, signer, genesis, headers)
  {
    hide MerkleRoot, HonestProof, Balance, Ledger.AccountOf, LightClient.ReadBalance, LightClient.GoodChain, Verifies;
    if LightClient.GoodChain(h, ver, signer, genesis, headers) {
      LightClient.HonestIsAccepted(h, ver, genesis, headers, signer, m, key);
    }
  }

  lemma PieceIsChain(a: Archive, s: nat, e: nat, genesis: Hash)
    requires Kept(a) && s < e <= |a.chain|
    ensures LightClient.GoodChain(a.h, a.ver, a.pk, genesis, a.chain[s..e]) <==> a.chain[s].header.prevStateRoot == genesis
  {
    hide FullHeaderBytes, HeaderBytes, Node.Executes, Kept, LightClient.GoodChain;
    var piece := a.chain[s..e];
    ArchiveLinks(a);
    ChainExactly(a.h, a.ver, genesis, piece, a.pk);
    ChainExactly(a.h, a.ver, Node.Genesis(a.chain), a.chain, a.pk);
    forall i | 0 < i < |piece|
      ensures piece[i].header.parentHash == a.h(FullHeaderBytes(piece[i - 1]))
    {
      assert piece[i] == a.chain[s + i] && piece[i - 1] == a.chain[s + i - 1];
    }
  }

  /** The client accepts the piece, with the proof from the accounts its last block left, and reads the balance there. */
  ghost predicate Accepts(a: Archive, s: nat, e: nat, genesis: Hash, key: PublicKey)
    requires s < e <= |a.chain| == |a.history|
  {
    var m := a.history[e - 1].after;
    LightClient.Explains(a.h, a.ver, genesis, a.chain[s..e], a.pk, key, HonestProof(a.h, m, key),
                         LightClient.Verified(Balance(Ledger.AccountOf(m, key))))
  }

  /** Every piece of a node's chain is accepted by exactly the clients whose genesis is the root its first block found. */
  lemma PieceIsAccepted(a: Archive, s: nat, e: nat, genesis: Hash, key: PublicKey)
    requires Kept(a) && NoCollision(a.h, a.hashed) && s < e <= |a.chain|
    ensures |a.chain| == |a.history| && (Accepts(a, s, e, genesis, key) <==> a.chain[s].header.prevStateRoot == genesis)
  {
    hide MerkleRoot, HonestProof, Balance, Ledger.AccountOf, LightClient.Explains, LightClient.GoodChain, Node.Executes;
    hide Kept, NoCollision, Ledger.WellKeyed, Node.Commits;
    ArchiveLinks(a);
    ArchiveCommits(a, e - 1);
    PieceIsChain(a, s, e, genesis);
    assert a.chain[s..e][e - s - 1] == a.chain[e - 1];
    HonestExactly(a.h, a.ver, genesis, a.chain[s..e], a.pk, a.history[e - 1].after, key);
  }

  /**
   A client that starts from the empty ledger accepts the whole chain exactly when the first
   completed block found the ledger empty: a block that stopped before it did harm.
   */
  lemma WholeChainFromEmpty(a: Archive, key: PublicKey) returns (at: Key)
    requires Kept(a) && NoCollision(a.h, a.hashed) && a.chain != []
    ensures |a.history| == |a.chain|
    ensures a.history[0].before == map[] ==> Accepts(a, 0, |a.chain|, MerkleRoot(a.h, 32, map[]), key)
    ensures Accepts(a, 0, |a.chain|, MerkleRoot(a.h, 32, map[]), key) ==>
              a.history[0].before == map[] || RootsCollide(a.h, a.history[0].before, map[], at)
  {
    hide MerkleRoot, Kept, NoCollision, Accepts, RootsCollide, Ledger.WellKeyed, Node.Commits;
    var genesis := MerkleRoot(a.h, 32, map[]);
    ArchiveCommits(a, 0);
    PieceIsAccepted(a, 0, |a.chain|, genesis, key);
    NothingIsKeyed();
    at := Zeros(32);
    if a.chain[0].header.prevStateRoot == genesis {
      at := AcceptedStartsAt(a, map[], 0);
    }
  }

  lemma NothingIsKeyed()
    ensures Ledger.WellKeyed(map[])
  {
  }

  // ----- what a header says about its block -----

  /**
   A list of transactions with the hash in a header is the list that the node executed at
   that block, and executing it takes the accounts of the previous root to those of the new
   root; or two lists collide.
   */
  lemma HeaderTellsBlock(a: Archive, i: nat, txs: seq<SignedTx>)
    requires Kept(a) && i < |a.chain| && a.chain[i].header.txListHash == a.h(TxListBytes(txs))
    requires forall j :: 0 <= j < |txs| ==> ShortTx(txs[j])
    requires i < |a.history| ==> forall j :: 0 <= j < |a.history[i].txs| ==> ShortTx(a.history[i].txs[j])
    ensures i < |a.history|
    ensures var b := a.history[i];
            || (txs == b.txs && Ledger.Block(b.before, txs, b.epoch) == (b.after, true))
            || Collision(a.h, TxListBytes(txs), TxListBytes(b.txs))
  {
    hide TxListBytes, Ledger.Block, Kept, LightClient.GoodChain;
    ArchiveLinks(a);
    assert Node.Executes(a.h, a.history[i], a.chain[i].header);
    if TxListBytes(txs) == TxListBytes(a.history[i].txs) {
      TxListInjective(txs, a.history[i].txs);
    }
  }

  /** The epoch of a block is its time in whole seconds, as long as that fits in 32 bits. */
  lemma EpochIsSeconds(ms: u64)
    ensures ms < 1000 * 0x1_0000_0000 <==> 1000 * Node.EpochOf(ms) <= ms < 1000 * Node.EpochOf(ms) + 1000
  {
  }
}
