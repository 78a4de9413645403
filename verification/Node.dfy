/**
 The sequencer (sequencer/src/state.rs, mempool.rs, node.rs): the accounts and registry
 trees, the queue of admitted transactions, and block production.

 `book` is the ledger state the objects stand for, and every call is a piece of a ledger
 run; `chain` and `history` are the headers completed so far and what happened at each.
 */
module Node {
  import opened Bytes
  import opened Hashing
  import opened Encodings
  import opened SparseMerkle
  import opened AccountRecord
  import Executor
  import Ledger
  import LightClient

  // ----- issuer records as tree values -----

  datatype Codec = Codec(encode: Ledger.IssuerRecord -> Bytes, decode: Bytes -> Option<Ledger.IssuerRecord>)

  /** The text form of issuer records is foreign code; it must be lossless and never empty. */
  ghost predicate Lossless(codec: Codec) {
    forall r :: codec.encode(r) != [] && codec.decode(codec.encode(r)) == Some(r)
  }

  /** The registry a tree of encoded records stands for. */
  ghost function RegistryOf(codec: Codec, leaves: Contents): Ledger.Registry {
    map k: Hash | k in leaves && codec.decode(leaves[k]).Some? :: codec.decode(leaves[k]).value
  }

  lemma RegisterView(codec: Codec, h: HashFn, leaves: Contents, rec: Ledger.IssuerRecord)
    requires Lossless(codec)
    ensures RegistryOf(codec, Updated(leaves, h(Ledger.IssuerKeyInput(rec.assetId)), codec.encode(rec)))
         == Ledger.RegisterIssuer(h, RegistryOf(codec, leaves), rec)
  {
    assert codec.encode(rec) != [];
  }

  // ----- the state -----

  class ChainState {
    const accounts: SparseMerkleTree
    const registry: SparseMerkleTree
    const codec: Codec

    ghost predicate Valid()
      reads this, accounts, registry
    {
      && accounts != registry && accounts.h == registry.h && accounts.keyBytes == registry.keyBytes == 32
      && accounts.Valid() && registry.Valid() && Lossless(codec)
      && Ledger.WellKeyed(accounts.leaves)
    }

    constructor (h: HashFn, codec: Codec)
      requires Lossless(codec)
      ensures Valid() && fresh(accounts) && fresh(registry) && accounts.h == h
      ensures accounts.leaves == map[] && registry.leaves == map[]
      ensures accounts.root == MerkleRoot(h, 32, map[])
    {
      accounts := new SparseMerkleTree(h, 32);
      registry := new SparseMerkleTree(h, 32);
      this.codec := codec;
    }

    method GetAccount(key: PublicKey) returns (a: Record)
      requires Valid()
      ensures a == Ledger.AccountOf(accounts.leaves, key)
    {
      var value, found := accounts.Get(key);
      a := if found && |value| == 64 then value else Fresh(key);
    }

    method PutAccount(a: Record) returns (root: Hash)
      requires Valid()
      modifies accounts
      ensures Valid() && root == accounts.root
      ensures accounts.leaves == Ledger.PutAccount(old(accounts.leaves), a)
      ensures old(accounts.hashed) <= accounts.hashed
    {
      root := accounts.Put(Pubkey(a), a);
    }

    method AccountProof(key: PublicKey) returns (p: MerkleProof)
      requires Valid()
      ensures p.value == Lookup(accounts.leaves, key)
      ensures NoCollision(accounts.h, accounts.hashed) ==> p == HonestProof(accounts.h, accounts.leaves, key)
    {
      p := accounts.Proof(key);
    }

    method RegisterIssuer(rec: Ledger.IssuerRecord)
      requires Valid()
      modifies registry
      ensures Valid()
      ensures RegistryOf(codec, registry.leaves) == Ledger.RegisterIssuer(registry.h, RegistryOf(codec, old(registry.leaves)), rec)
    {
      RegisterView(codec, registry.h, registry.leaves, rec);
      var _ := registry.Put(registry.h(Ledger.IssuerKeyInput(rec.assetId)), codec.encode(rec));
    }

    method LookupIssuer(assetId: u32) returns (r: Option<Ledger.IssuerRecord>)
      requires Valid()
      ensures r == Ledger.LookupIssuer(registry.h, RegistryOf(codec, registry.leaves), assetId)
    {
      var value, found := registry.Get(registry.h(Ledger.IssuerKeyInput(assetId)));
      r := if found then codec.decode(value) else None;
    }
  }

  // ----- the mempool -----

  datatype IngressResult = Queued | Full | Rejected(reason: Ledger.Admission)

  class Mempool {
    var queue: seq<SignedTx>
    const capacity: nat

    constructor (capacity: nat)
      ensures queue == [] && this.capacity == capacity
    {
      queue, this.capacity := [], capacity;
    }

    method Ingress(tx: SignedTx, state: ChainState, ver: Verifier) returns (r: IngressResult)
      requires state.Valid()
      modifies this
      ensures var issuer := Ledger.LookupIssuer(state.registry.h, RegistryOf(state.codec, state.registry.leaves), tx.assetId);
              var verdict := Ledger.Validate(ver, state.accounts.leaves, issuer, tx);
              r == if |old(queue)| >= capacity then Full else if verdict.Admitted? then Queued else Rejected(verdict)
      ensures queue == if r.Queued? then old(queue) + [tx] else old(queue)
    {
      if |queue| >= capacity {
        return Full;
      }
      var issuer := state.LookupIssuer(tx.assetId);
      var verdict := Ledger.Validate(ver, state.accounts.leaves, issuer, tx);
      if !verdict.Admitted? {
        return Rejected(verdict);
      }
      queue := queue + [tx];
      r := Queued;
    }

    /** Take up to `n` transactions off the front. */
    method Drain(n: nat) returns (txs: seq<SignedTx>)
      modifies this
      ensures txs + queue == old(queue)
      ensures |txs| == if n <= |old(queue)| then n else |old(queue)|
    {
      var take := if n <= |queue| then n else |queue|;
      txs, queue := queue[..take], queue[take..];
    }
  }

  // ----- the node -----

  function TraceMarker(): Hash { seq(32, _ => 0xCA) }

  function TraceBytes(n: nat): Bytes {
    if n == 0 then [] else TraceBytes(n - 1) + TraceMarker()
  }

  ghost function Genesis(chain: seq<SignedHeader>): Hash {
    if chain == [] then Zeros(32) else chain[0].header.prevStateRoot
  }

  ghost function Last(chain: seq<SignedHeader>): Option<SignedHeader> {
    if chain == [] then None else Some(chain[|chain| - 1])
  }

  /** A completed block: the accounts it found, the transactions it executed at that epoch, the accounts it left. */
  datatype BlockRecord = BlockRecord(before: Ledger.Accounts, txs: seq<SignedTx>, epoch: u32, after: Ledger.Accounts)

  /** The block left what its transactions, all of them, make of what it found; its header hashes the list and the traces. */
  ghost predicate Executes(h: HashFn, b: BlockRecord, header: Header) {
    && b.txs != [] && Ledger.WellKeyed(b.before) && Ledger.WellKeyed(b.after)
    && Ledger.Block(b.before, b.txs, b.epoch) == (b.after, true)
    && header.txListHash == h(TxListBytes(b.txs)) && header.traceHash == h(TraceBytes(|b.txs|))
  }

  /** A list of headers that a light client accepts, numbered from zero, each of the block recorded for it. */
  ghost predicate Numbered(h: HashFn, ver: Verifier, pk: PublicKey, chain: seq<SignedHeader>, history: seq<BlockRecord>) {
    && |history| == |chain|
    && (chain != [] ==> LightClient.GoodChain(h, ver, pk, Genesis(chain), chain) && chain[0].header.parentHash == Zeros(32))
    && (forall i :: 0 <= i < |chain| ==> chain[i].header.blockN == i % TWO64)
    && (forall i :: 0 <= i < |history| ==> Executes(h, history[i], chain[i].header))
  }

  /** The root is the accounts' Merkle root, and every string behind it was hashed. */
  ghost predicate Commits(h: HashFn, root: Hash, m: Ledger.Accounts, hashed: set<Bytes>) {
    root == MerkleRoot(h, 32, m) && Covered(h, 256, m, hashed) && LeavesCovered(h, m, hashed)
  }

  /** Each header commits to the accounts before and after its block. */
  ghost predicate RootsMatch(h: HashFn, chain: seq<SignedHeader>, history: seq<BlockRecord>, hashed: set<Bytes>)
    requires |history| == |chain|
  {
    forall i :: 0 <= i < |chain| ==>
      && Commits(h, chain[i].header.prevStateRoot, history[i].before, hashed)
      && Commits(h, chain[i].header.newStateRoot, history[i].after, hashed)
  }

  datatype BlockResult = NoBlock | Stopped | Completed(header: SignedHeader)

  /** The clock in seconds, cut to 32 bits. */
  function EpochOf(ms: u64): u32 { ms / 1000 % 0x1_0000_0000 }

  function Front(s: seq<SignedTx>, n: nat): (r: seq<SignedTx>)
    ensures r <= s && |r| == if n <= |s| then n else |s|
  {
    if n <= |s| then s[..n] else s
  }

  /** The header of a completed block. */
  function NextHeader(h: HashFn, last: Option<SignedHeader>, prevRoot: Hash, newRoot: Hash, registryRoot: Hash,
                      listed: Bytes, traces: Bytes, time: u64, pk: PublicKey): Header
  {
    Header(if last.Some? then (last.value.header.blockN + 1) % TWO64 else 0,
           if last.Some? then h(FullHeaderBytes(last.value)) else Zeros(32),
           prevRoot, h(listed), h(traces), newRoot, registryRoot, time, pk)
  }

  /** The headers completed so far, and the accounts each commits to. */
  ghost predicate Recorded(h: HashFn, ver: Verifier, pk: PublicKey, last: Option<SignedHeader>, chain: seq<SignedHeader>,
                           history: seq<BlockRecord>, hashed: set<Bytes>)
  {
    && last == Last(chain) && Numbered(h, ver, pk, chain, history)
    && (NoCollision(h, hashed) ==> RootsMatch(h, chain, history, hashed))
  }

  lemma NoCollisionBefore(h: HashFn, hashed: set<Bytes>, hashed': set<Bytes>)
    requires hashed <= hashed' && NoCollision(h, hashed')
    ensures NoCollision(h, hashed)
  {
  }

  lemma CommitsStays(h: HashFn, root: Hash, m: Ledger.Accounts, hashed: set<Bytes>, hashed': set<Bytes>)
    requires Commits(h, root, m, hashed) && hashed <= hashed'
    ensures Commits(h, root, m, hashed')
  {
  }

  lemma RecordedStays(h: HashFn, ver: Verifier, pk: PublicKey, last: Option<SignedHeader>, chain: seq<SignedHeader>,
                      history: seq<BlockRecord>, hashed: set<Bytes>, hashed': set<Bytes>)
    requires Recorded(h, ver, pk, last, chain, history, hashed) && hashed <= hashed'
    ensures Recorded(h, ver, pk, last, chain, history, hashed')
  {
    hide Numbered, Commits, NoCollision;
    NumberedMeans(h, ver, pk, chain, history);
    if NoCollision(h, hashed') {
      NoCollisionBefore(h, hashed, hashed');
      forall i | 0 <= i < |chain|
        ensures Commits(h, chain[i].header.prevStateRoot, history[i].before, hashed')
        ensures Commits(h, chain[i].header.newStateRoot, history[i].after, hashed')
      {
        CommitsStays(h, chain[i].header.prevStateRoot, history[i].before, hashed, hashed');
        CommitsStays(h, chain[i].header.newStateRoot, history[i].after, hashed, hashed');
      }
    }
  }

  /** A completed block extends the record. */
  lemma RecordGrows(h: HashFn, ver: Verifier, pk: PublicKey, last: Option<SignedHeader>, chain: seq<SignedHeader>,
                    history: seq<BlockRecord>, hashed: set<Bytes>, s: SignedHeader, b: BlockRecord)
    requires Recorded(h, ver, pk, last, chain, history, hashed) && LightClient.Signed(ver, pk, s) && Executes(h, b, s.header)
    requires s.header.blockN == if last.Some? then (last.value.header.blockN + 1) % TWO64 else 0
    requires s.header.parentHash == if last.Some? then h(FullHeaderBytes(last.value)) else Zeros(32)
    requires NoCollision(h, hashed) ==>
               Commits(h, s.header.prevStateRoot, b.before, hashed) && Commits(h, s.header.newStateRoot, b.after, hashed)
    ensures Recorded(h, ver, pk, Some(s), chain + [s], history + [b], hashed)
  {
    hide Commits, Numbered, Executes, LightClient.GoodChain, LightClient.Signed, FullHeaderBytes;
    NumberedMeans(h, ver, pk, chain, history);
    ChainGrows(h, ver, pk, chain, s);
    NextNumber(|chain|);
    NumberedGrows(h, ver, pk, chain, history, s, b);
  }

  /** The next header, properly signed, extends the record and commits to the present accounts. */
  lemma HeaderExtends(h: HashFn, ver: Verifier, pk: PublicKey, last: Option<SignedHeader>, chain: seq<SignedHeader>,
                      history: seq<BlockRecord>, hashed: set<Bytes>, s: SignedHeader, b: BlockRecord,
                      prevRoot: Hash, newRoot: Hash, registryRoot: Hash, time: u64)
    requires Recorded(h, ver, pk, last, chain, history, hashed) && Ledger.WellKeyed(b.before) && Ledger.WellKeyed(b.after)
    requires b.txs != [] && Ledger.Block(b.before, b.txs, b.epoch) == (b.after, true)
    requires s.header == NextHeader(h, last, prevRoot, newRoot, registryRoot, TxListBytes(b.txs), TraceBytes(|b.txs|), time, pk)
    requires ver(pk, HeaderBytes(s.header), s.signature)
    requires NoCollision(h, hashed) ==> Commits(h, prevRoot, b.before, hashed) && Commits(h, newRoot, b.after, hashed)
    ensures Recorded(h, ver, pk, Some(s), chain + [s], history + [b], hashed)
  {
    hide Commits, Recorded, Ledger.Block, Ledger.WellKeyed, TxListBytes, TraceBytes;
    RecordGrows(h, ver, pk, last, chain, history, hashed, s, b);
  }

  lemma NumberedMeans(h: HashFn, ver: Verifier, pk: PublicKey, chain: seq<SignedHeader>, history: seq<BlockRecord>)
    requires Numbered(h, ver, pk, chain, history)
    ensures |history| == |chain| && (chain != [] ==> LightClient.GoodChain(h, ver, pk, Genesis(chain), chain))
    ensures chain != [] ==> chain[|chain| - 1].header.blockN == (|chain| - 1) % TWO64
  {
  }

  lemma NumberedGrows(h: HashFn, ver: Verifier, pk: PublicKey, chain: seq<SignedHeader>, history: seq<BlockRecord>,
                      s: SignedHeader, b: BlockRecord)
    requires Numbered(h, ver, pk, chain, history) && s.header.blockN == |chain| % TWO64 && Executes(h, b, s.header)
    requires chain == [] ==> s.header.parentHash == Zeros(32)
    requires LightClient.GoodChain(h, ver, pk, Genesis(chain + [s]), chain + [s])
    ensures Numbered(h, ver, pk, chain + [s], history + [b])
  {
    hide Executes, LightClient.GoodChain;
  }

  lemma NextNumber(n: nat)
    ensures n > 0 ==> ((n - 1) % TWO64 + 1) % TWO64 == n % TWO64
  {
  }

  /** What one completed header adds to a chain that a light client accepts. */
  lemma ChainGrows(h: HashFn, ver: Verifier, pk: PublicKey, chain: seq<SignedHeader>, s: SignedHeader)
    requires chain != [] ==> LightClient.GoodChain(h, ver, pk, Genesis(chain), chain)
    requires chain != [] ==> s.header.parentHash == h(FullHeaderBytes(chain[|chain| - 1]))
    requires LightClient.Signed(ver, pk, s)
    ensures LightClient.GoodChain(h, ver, pk, Genesis(chain + [s]), chain + [s])
  {
    var c, g := chain + [s], Genesis(chain + [s]);
    forall i: nat | i < |c|
      ensures LightClient.GoodAt(h, ver, pk, g, c, i)
    {
      if i < |chain| {
        assert LightClient.GoodAt(h, ver, pk, Genesis(chain), chain, i);
      }
    }
  }

  /** The ledger run of a block ends with the accounts and the queue that the node is left with. */
  lemma BookKept(h: HashFn, ver: Verifier, capacity: nat, s: Ledger.State, txs: seq<SignedTx>, rest: seq<SignedTx>, epoch: u32)
    requires s.queue == txs + rest
    ensures var s' := Ledger.AfterBlock(h, ver, capacity, s, |txs|, epoch);
            s'.accounts == Ledger.Block(s.accounts, txs, epoch).0 && s'.queue == rest && s'.registry == s.registry
  {
    Ledger.BlockIsRun(h, ver, capacity, s, |txs|, epoch);
    assert s.queue[..|txs|] == txs && s.queue[|txs|..] == rest;
  }

  /** The tree's root commits to its leaves. */
  lemma TreeCommits(t: SparseMerkleTree)
    requires t.Valid() && t.keyBytes == 32 && NoCollision(t.h, t.hashed)
    ensures Commits(t.h, t.root, t.leaves, t.hashed)
  {
  }

  /** The present root is the last header's exactly when the present accounts are those at its block. */
  lemma RootContinuity(state: ChainState, last: Option<SignedHeader>, chain: seq<SignedHeader>, history: seq<BlockRecord>,
                       ver: Verifier, pk: PublicKey)
    requires state.Valid() && Recorded(state.accounts.h, ver, pk, last, chain, history, state.accounts.hashed)
    ensures chain != [] && NoCollision(state.accounts.h, state.accounts.hashed) ==>
              (state.accounts.root == chain[|chain| - 1].header.newStateRoot <==> state.accounts.leaves == history[|chain| - 1].after)
  {
    if chain != [] && NoCollision(state.accounts.h, state.accounts.hashed) {
      var m, last := history[|chain| - 1].after, chain[|chain| - 1].header.newStateRoot;
      assert Executes(state.accounts.h, history[|chain| - 1], chain[|chain| - 1].header);
      assert Commits(state.accounts.h, last, m, state.accounts.hashed);
      LightClient.WellKeyedIsWellFormed(m);
      if state.accounts.root == last {
        RootDeterminesMap(state.accounts.h, 32, state.accounts.leaves, m, state.accounts.hashed);
      }
    }
  }

  class SequencerNode {
    const ver: Verifier
    const pk: PublicKey
    const sign: Bytes -> Signature
    const blockSize: nat
    const state: ChainState
    const mempool: Mempool
    var lastHeader: Option<SignedHeader>
    ghost var book: Ledger.State
    ghost var chain: seq<SignedHeader>
    ghost var history: seq<BlockRecord>

    ghost predicate Valid()
      reads this, state, state.accounts, state.registry, mempool
    {
      && state.Valid() && (forall b :: ver(pk, b, sign(b)))
      && book.accounts == state.accounts.leaves && book.queue == mempool.queue
      && book.registry == RegistryOf(state.codec, state.registry.leaves)
      && Published()
    }

    /** The headers so far form a chain, each committing to the accounts at its block. */
    ghost predicate Published()
      reads this, state, state.accounts
    {
      Recorded(state.accounts.h, ver, pk, lastHeader, chain, history, state.accounts.hashed)
    }

    constructor (h: HashFn, codec: Codec, ver: Verifier, pk: PublicKey, sign: Bytes -> Signature, blockSize: nat)
      requires Lossless(codec) && forall b :: ver(pk, b, sign(b))
      ensures Valid() && Ledger.Start(h, book) && book.accounts == map[] && chain == []
      ensures fresh(state) && fresh(state.accounts) && fresh(state.registry) && fresh(mempool)
      ensures state.accounts.h == h && this.ver == ver && this.pk == pk && mempool.capacity == 10000
    {
      this.ver, this.pk, this.sign, this.blockSize := ver, pk, sign, blockSize;
      state := new ChainState(h, codec);
      mempool := new Mempool(10000);
      lastHeader, chain, history := None, [], [];
      book := Ledger.State(map[], map[], [], 0, 0, 0, 0, []);
    }

    method RegisterIssuer(rec: Ledger.IssuerRecord)
      requires Valid()
      modifies this`book, state.registry
      ensures Valid() && chain == old(chain) && history == old(history)
      ensures book == Ledger.Next(state.accounts.h, ver, mempool.capacity, old(book), Ledger.Register(rec))
    {
      hide Recorded, NoCollision, Agrees, WellFormed, MerkleRoot;
      state.RegisterIssuer(rec);
      book := Ledger.Next(state.accounts.h, ver, mempool.capacity, book, Ledger.Register(rec));
    }

    method Ingress(tx: SignedTx) returns (r: IngressResult)
      requires Valid()
      modifies this`book, mempool
      ensures Valid() && chain == old(chain) && history == old(history)
      ensures var issuer := Ledger.LookupIssuer(state.accounts.h, old(book).registry, tx.assetId);
              var verdict := Ledger.Validate(ver, old(book).accounts, issuer, tx);
              r == if |old(book).queue| >= mempool.capacity then Full else if verdict.Admitted? then Queued else Rejected(verdict)
      ensures book == Ledger.Next(state.accounts.h, ver, mempool.capacity, old(book), Ledger.Ingress(tx))
    {
      hide Recorded, NoCollision, Agrees, WellFormed, MerkleRoot, Ledger.Validate;
      r := mempool.Ingress(tx, state, ver);
      book := Ledger.Next(state.accounts.h, ver, mempool.capacity, book, Ledger.Ingress(tx));
    }

    method AssembleWitness(tx: SignedTx, epoch: u32) returns (w: Option<Executor.Witness>)
      requires state.Valid()
      ensures w == Ledger.Assemble(state.accounts.leaves, tx, epoch)
    {
      if tx.kind.MultiAsset? || (tx.kind.Transfer? && tx.recipient.None?) {
        return None;
      }
      var first := state.GetAccount(if tx.kind.Transfer? || tx.kind.Burn? || tx.recipient.None? then tx.signer else tx.recipient.value);
      if tx.kind.Transfer? {
        var to := state.GetAccount(tx.recipient.value);
        return Some(Executor.Witness(epoch, [first, to], tx.amount, tx.flag));
      }
      w := Some(Executor.Witness(epoch, [first], tx.amount, tx.flag));
    }

    /** Look up the records of a transaction and run it on them; nothing is written yet. */
    method ExecuteTx(tx: SignedTx, epoch: u32) returns (r: Option<Executor.TraceResult>)
      requires state.Valid()
      ensures var m := state.accounts.leaves;
              Ledger.ApplyTx(m, tx, epoch)
                == if r.None? then Ledger.Refused
                   else Ledger.Applied(if r.value.success then Ledger.PutAll(m, r.value.updated) else m, r.value.success)
    {
      var w := AssembleWitness(tx, epoch);
      if w.None? {
        return None;
      }
      r := Executor.RunNative(tx.kind, w.value);
    }

    method PutAll(records: seq<Record>)
      requires state.Valid()
      modifies state.accounts
      ensures state.Valid() && state.accounts.leaves == Ledger.PutAll(old(state.accounts.leaves), records)
      ensures old(state.accounts.hashed) <= state.accounts.hashed
    {
      assert records[..0] == [];
      for i := 0 to |records|
        invariant state.Valid() && state.accounts.leaves == Ledger.PutAll(old(state.accounts.leaves), records[..i])
        invariant old(state.accounts.hashed) <= state.accounts.hashed
      {
        assert records[..i + 1][..i] == records[..i];
        var _ := state.PutAccount(records[i]);
      }
      assert records[..|records|] == records;
    }

    /** Execute one transaction and write its records. */
    method ApplyTx(tx: SignedTx, epoch: u32) returns (ok: bool)
      requires state.Valid()
      modifies state.accounts
      ensures state.Valid() && old(state.accounts.hashed) <= state.accounts.hashed
      ensures var r := Ledger.ApplyTx(old(state.accounts.leaves), tx, epoch);
              ok == r.Applied? && state.accounts.leaves == if ok then r.accounts else old(state.accounts.leaves)
    {
      var r := ExecuteTx(tx, epoch);
      ok := r.Some?;
      if ok && r.value.success {
        PutAll(r.value.updated);
      }
    }

    /** Execute and write the drained transactions, up to the first that is refused. */
    method ExecuteAll(txs: seq<SignedTx>, epoch: u32) returns (traces: Bytes, ok: bool)
      requires state.Valid()
      modifies state.accounts
      ensures state.Valid() && (state.accounts.leaves, ok) == Ledger.Block(old(state.accounts.leaves), txs, epoch)
      ensures old(state.accounts.hashed) <= state.accounts.hashed
      ensures ok ==> traces == TraceBytes(|txs|)
    {
      traces := [];
      for i := 0 to |txs|
        invariant state.Valid() && old(state.accounts.hashed) <= state.accounts.hashed
        invariant Ledger.Block(old(state.accounts.leaves), txs, epoch) == Ledger.Block(state.accounts.leaves, txs[i..], epoch)
        invariant traces == TraceBytes(i)
      {
        Ledger.BlockStep(state.accounts.leaves, txs, i, epoch);
        ok := ApplyTx(txs[i], epoch);
        if !ok {
          return;
        }
        traces := traces + TraceMarker();
      }
      ok := true;
    }

    /** Build, sign and record the header of a block whose transactions are all written. */
    method Complete(prevRoot: Hash, txs: seq<SignedTx>, traces: Bytes, time: u64, ghost before: Ledger.Accounts, ghost epoch: u32)
      returns (s: SignedHeader)
      requires Ledger.WellKeyed(before) && Ledger.WellKeyed(state.accounts.leaves) && (forall b :: ver(pk, b, sign(b)))
      requires txs != [] && Ledger.Block(before, txs, epoch) == (state.accounts.leaves, true) && traces == TraceBytes(|txs|)
      requires NoCollision(state.accounts.h, state.accounts.hashed) ==>
                 && Commits(state.accounts.h, prevRoot, before, state.accounts.hashed)
                 && Commits(state.accounts.h, state.accounts.root, state.accounts.leaves, state.accounts.hashed)
      requires Recorded(state.accounts.h, ver, pk, lastHeader, chain, history, state.accounts.hashed)
      modifies this`chain, this`history, this`lastHeader
      ensures Published() && chain == old(chain) + [s]
      ensures history == old(history) + [BlockRecord(before, txs, epoch, state.accounts.leaves)]
      ensures s.header == NextHeader(state.accounts.h, old(lastHeader), prevRoot, state.accounts.root, state.registry.root,
                                     TxListBytes(txs), traces, time, pk)
    {
      hide Recorded, NextHeader, Commits, Ledger.Block, Ledger.WellKeyed, TxListBytes, TraceBytes;
      ghost var b := BlockRecord(before, txs, epoch, state.accounts.leaves);
      var listed := TxListInput(txs);
      var header := NextHeader(state.accounts.h, lastHeader, prevRoot, state.accounts.root, state.registry.root, listed, traces, time, pk);
      s := SignedHeader(header, sign(HeaderBytes(header)));
      HeaderExtends(state.accounts.h, ver, pk, lastHeader, chain, history, state.accounts.hashed, s, b,
                    prevRoot, state.accounts.root, state.registry.root, time);
      lastHeader, chain, history := Some(s), chain + [s], history + [b];
    }

    /** The block itself: drain, execute, and on success extend the chain by one signed header. */
    method MakeBlock(epoch: u32, later: u64) returns (r: BlockResult, txs: seq<SignedTx>)
      requires state.Valid() && Published() && (forall b :: ver(pk, b, sign(b)))
      modifies this`chain, this`history, this`lastHeader, mempool, state.accounts
      ensures state.Valid() && Published()
      ensures txs == Front(old(mempool.queue), blockSize) && txs + mempool.queue == old(mempool.queue)
      ensures state.accounts.leaves == Ledger.Block(old(state.accounts.leaves), txs, epoch).0
      ensures r.NoBlock? <==> txs == []
      ensures r.Stopped? <==> !Ledger.Block(old(state.accounts.leaves), txs, epoch).1
      ensures if r.Completed?
              then && chain == old(chain) + [r.header]
                   && history == old(history) + [BlockRecord(old(state.accounts.leaves), txs, epoch, state.accounts.leaves)]
              else chain == old(chain) && history == old(history)
      ensures r.Completed? ==>
                r.header.header == NextHeader(state.accounts.h, old(lastHeader), old(state.accounts.root),
                              state.accounts.root, state.registry.root, TxListBytes(txs), TraceBytes(|txs|), later, pk)
      ensures r.Completed? ==>
                && r.header.header.registryRoot == state.registry.root && r.header.header.timestampMs == later
                && r.header.header.sequencerPubkey == pk
      ensures r.Completed? && old(chain) != [] && NoCollision(state.accounts.h, old(state.accounts.hashed)) ==>
                (old(state.accounts.leaves) == old(history)[|old(chain)| - 1].after <==>
                 r.header.header.prevStateRoot == old(chain)[|old(chain)| - 1].header.newStateRoot)
    {
      hide Commits, Recorded, Ledger.Block, Ledger.WellKeyed, TxListBytes, TraceBytes, NoCollision, Agrees, WellFormed, MerkleRoot;
      Ledger.EmptyBlock(state.accounts.leaves, epoch);
      RootContinuity(state, lastHeader, chain, history, ver, pk);
      txs := mempool.Drain(blockSize);
      if txs == [] {
        return NoBlock, [];
      }
      var prevRoot := state.accounts.root;
      ghost var hashed, before := state.accounts.hashed, state.accounts.leaves;
      if NoCollision(state.accounts.h, hashed) {
        TreeCommits(state.accounts);
      }
      var traces, ok := ExecuteAll(txs, epoch);
      RecordedStays(state.accounts.h, ver, pk, lastHeader, chain, history, hashed, state.accounts.hashed);
      if !ok {
        return Stopped, txs;
      }
      if NoCollision(state.accounts.h, state.accounts.hashed) {
        NoCollisionBefore(state.accounts.h, hashed, state.accounts.hashed);
        CommitsStays(state.accounts.h, prevRoot, before, hashed, state.accounts.hashed);
        TreeCommits(state.accounts);
      }
      var s := Complete(prevRoot, txs, traces, later, before, epoch);
      r := Completed(s);
    }

    /** `now` and `later` are the two readings of the clock, in milliseconds. */
    method ProduceBlock(now: u64, later: u64) returns (r: BlockResult)
      requires Valid()
      modifies this`book, this`chain, this`history, this`lastHeader, mempool, state.accounts
      ensures Valid()
      ensures book == Ledger.AfterBlock(state.accounts.h, ver, mempool.capacity, old(book),
                                        |Front(old(mempool.queue), blockSize)|, EpochOf(now))
      ensures if r.Completed?
              then && chain == old(chain) + [r.header]
                   && history == old(history) + [BlockRecord(old(book).accounts, Front(old(mempool.queue), blockSize), EpochOf(now), book.accounts)]
              else chain == old(chain) && history == old(history)
    {
      hide Recorded, NoCollision, Agrees, WellFormed, MerkleRoot;
      var txs;
      r, txs := MakeBlock(EpochOf(now), later);
      BookKept(state.accounts.h, ver, mempool.capacity, book, txs, mempool.queue, EpochOf(now));
      book := Ledger.AfterBlock(state.accounts.h, ver, mempool.capacity, book, |txs|, EpochOf(now));
    }
  }

  // ----- the node and its light clients -----

  /** Unforgeability, for one header: if the node's key verifies it, the node has signed these bytes as a header. */
  ghost predicate Genuine(ver: Verifier, pk: PublicKey, chain: seq<SignedHeader>, s: SignedHeader) {
    ver(pk, HeaderBytes(s.header), s.signature) ==>
      exists i :: 0 <= i < |chain| && HeaderBytes(s.header) == HeaderBytes(chain[i].header)
  }
}
