# A verified model of the settlement ledger and its agent layer

The repository is a settlement ledger with agents negotiating on top of it. Accounts live
in a sparse Merkle tree; a sequencer admits, executes and commits transactions and
publishes signed headers; a light client turns headers and a Merkle proof into a balance.
Arithmetic can be carried out by ternary networks, chained over bytes and wrapped into
contracts. Agents propose, accept and execute such contracts over an unreliable channel,
each under a spending policy.

This project models that core in Dafny and proves what it is for. Verify it with
`dafny verify dfyconfig.toml`.

## What is proved

- **Tree.** After any puts, overwrites and deletes, the tree's root is the recursive Merkle
  root of the map it holds, although stale nodes stay in the store and empty subtrees are
  left out. Proofs it generates verify; a proof that verifies carries the stored value;
  two trees have one root exactly when they hold one map. Each of these holds, or two
  strings that collide are named: a pair computed from the proofs, or a pair among the
  strings the tree really hashed.
- **Negotiation.** In every behaviour of any number of agents, with handlers interleaved at
  their lock sections and messages lost, repeated, reordered, misdelivered or altered: an
  accepted proposal is accepted in the addressee's log with the same proposal and accept,
  an executed one is executed in the proposer's log with the same execute; an agent sends
  one execute per proposal at most, and nothing that a call did not ask for; reputation
  counts exactly the claims found true and found false; a dispute over an honest execute's
  own evidence is dismissed, when its own proposal is brought. A log is decided by who came
  first. The handlers, as methods, are shown
  to be sequences of these steps, calls on any number of agents to form a behaviour, and an
  undisturbed exchange to complete.
- **Ledger.** Over any run: supply plus burned equals initial supply plus minted, up to
  exactly accounted self-transfers and wraps; records stay under their own key; every supply
  change was signed by the authority registered for its asset when it was admitted, and is
  executed no more often than admitted; everything executed was lawful when it was admitted,
  under the record registered last; every account's balance, nonce and flag are what the
  executed transactions add up to; until it is unfrozen, a frozen account pays nothing
  and is credited exactly, and loses exactly the burns that its own key signed.
  The sequencer object follows these runs, its headers form a chain that tells what each
  block found, executed and left, and a light client reads from it exactly what it stored,
  whatever it is handed: an accepted list is a piece of the chain from a block that found
  the client's genesis.
- **Ternary machine.** Sparse layers are dense matrix products, with multiplicities as
  weights; the built byte networks add and subtract; the chains are addition and subtraction
  at any width; each contract equals its integer specification on all inputs; the native
  executor and the ternary transfer agree; the freeze networks write the byte that the
  account setter writes.
- **Formats and policy.** Packing weights can be undone, through the row pointers, and is
  injective, and unpacking can be undone on exactly the tidy files; the signing encodings are
  injective, with every field at its documented place; the evicting spend queue decides as a
  filter over the whole history, by lists, expiry and window total, and no window of what it
  admits exceeds its cap, on exactly the safe clocks.

Findings, each with an input that shows it and the exact condition:

- A transfer to oneself creates its amount, because the credited record is written over the
  debited one; and a credit that reaches 2^127 loses 2^127, so that a transfer between two
  accounts can destroy the supply (`Ledger.SelfTransferCreates`, `Ledger.TransferDestroys`).
  `Ledger.TransferConserves` says exactly when a transfer conserves, and
  `Ledger.RunBalances` what holds of every run.
- A balance of 2^127 or more is not stored but sets the frozen flag
  (`AccountRecord.SetBalanceExact`, `AccountRecord.LargeBalanceFreezes`).
- A transfer submitted twice before its block is paid twice, exactly when the balance covers
  it twice (`LedgerLimits.PaidTwice`), because the nonce is compared at admission only.
  `LedgerLimits.ReadmittedExactly` and `LedgerLimits.ReadmittedAfter` say how far admission
  helps; comparing the nonce at execution would close the gap (`LedgerLimits.PaidOnce`).
- A burn admitted before a freeze is still carried out after it
  (`LedgerLimits.BurnIgnoresFreeze`).
- An issuer's supply cap is never read, and what is minted under one asset can be paid under
  another (`LedgerLimits.CapAndAssetUnread`, with the inputs `LedgerLimits.MintAboveCap` and
  `LedgerLimits.AssetsMix`).
- Row 0 of the first layer of the freeze network lists input 130 twice, so its weight there is
  -2, although weights are documented as -1, 0 and +1 (`FreezeNetworks.HalvesRepeats`).
  `Network.TernaryExactly` and `Network.SignProductExactly` say exactly which rows are as
  documented.
- A dispute is resolved on evidence of the disputer's choice, and so can slash an executor
  that did nothing wrong (`AgentProtocol.OtherEvidenceSlashes`); `AgentProtocol.DisputeExactly`
  says exactly when. The proposal brought to a dispute is not compared with the execute
  either, so that another signed proposal slashes on the executor's own evidence
  (`AgentConduct.OtherProposalSlashes`).
- The time from which a proposal is valid is never read: an accept before it counts
  (`AgentConduct.EarlyAcceptCounts`); `ProposalLog.VerdictMeans` says exactly which accepts do.
- A clock that passes the window of a reading and then comes back near it lets twice the cap
  through one window (`SpendPolicy.ClockMustNotGoBack`); `SpendPolicy.SafeClocksExactly` says
  that no other clock does.
- A block that stops midway leaves earlier transactions written (`Ledger.StoppedBlockWrites`),
  so a later header's previous root need not be the last header's new root;
  `Node.RootContinuity` and `Node.SequencerNode.MakeBlock` say exactly when it is. If the
  first block stops so, a client that starts from the empty ledger refuses the node's whole
  chain (`Audit.WholeChainFromEmpty`).
- Unpacking accepts files that the packer does not write: `WeightFormat.RepackExactly` says
  which, `WeightFormat.TrailingBytesIgnored` shows one family.  It panics on row pointers out
  of range: `WeightFormat.BadPointerPanics`, `WeightFormat.PanicsExactly`.

Conventions. The hash is a function parameter and signature checking a predicate
parameter; no lemma assumes that the hash is injective. The tree's depth is eight times
the key length. Clocks, the text form of issuer records and contract execution are
parameters. Nonces and block numbers wrap at 2^64, as in a release build. Comments in the
mempool say that mint and freeze nonces are checked against the registry; the code does
not check them, and the model follows the code.

## Model

| member | source | states |
|---|---|---|
| `SparseMerkle.DefaultHashes` | crypto/src/smt.rs:33-42 | The table of empty-subtree hashes is the recursive definition at every depth |
| `SparseMerkle.SparseMerkleTree.constructor` | crypto/src/smt.rs:71-79 | A new tree holds the empty map and has that map's Merkle root |
| `SparseMerkle.SparseMerkleTree.Get` | crypto/src/smt.rs:105-107 | Returns the map's value; absent keys read as empty |
| `SparseMerkle.KeyBit` | crypto/src/smt.rs:99-102 | Shifting and masking one byte yields bit i, from the most significant, of the whole key as a big-endian integer |
| `SparseMerkle.BitOfInteger` | crypto/src/smt.rs:99-102 | The bit string that orders the tree is the binary notation of the key as an integer |
| `SparseMerkle.ReadPath` | crypto/src/smt.rs:138-159 | The loop reads the siblings node by node, and defaults from the first absent node on |
| `SparseMerkle.WalkIsHonest` | crypto/src/smt.rs:138-159 | What it reads are the Merkle hashes off the path, when the store is complete and nothing hashed collides |
| `SparseMerkle.ReadSiblings` | crypto/src/smt.rs:138-159 | Walking the store from the root yields the Merkle hashes of the subtrees off the key's path, or hashed strings collide |
| `SparseMerkle.SparseMerkleTree.ComputePath` | crypto/src/smt.rs:138-159 | The same for a tree |
| `SparseMerkle.StoreClimb` | crypto/src/smt.rs:112-132 | Hashing up the path files every node under its hash, keeps the old ones, and ends at the climbed root |
| `SparseMerkle.SparseMerkleTree.Put` | crypto/src/smt.rs:111-134 | The map is updated (an empty value removes the key) and the root is the Merkle root of the new map |
| `SparseMerkle.PutAgrees` | crypto/src/smt.rs:111-134 | After a put, every path of the new map is present in a store that also keeps stale nodes |
| `SparseMerkle.SparseMerkleTree.Proof` | crypto/src/smt.rs:163-170 | The proof is the honest proof of the map and verifies against the root |
| `SparseMerkle.SparseMerkleTree.VerifyProof` | crypto/src/smt.rs:175-192 | The loop accepts exactly the proofs whose climb ends at the root |
| `SparseMerkle.HonestProofVerifies` | crypto/src/smt.rs:163-192 | For every map and key, present or absent, the honest proof verifies |
| `SparseMerkle.ProofBinding` | crypto/src/smt.rs:175-192 | Two proofs of one key under one root carry one value, or collide at a computed pair |
| `SparseMerkle.ProofSound` | crypto/src/smt.rs:175-192 | A proof that verifies against a map's root carries the map's value, or a collision |
| `SparseMerkle.RootBinding` | crypto/src/smt.rs:89-134 | Two different maps with one root give an explicit collision |
| `SparseMerkle.RootDeterminesMap` | crypto/src/smt.rs:89-134 | Among strings without collision, the root determines the map |
| `SparseMerkle.SameRootSameMap` | crypto/src/smt.rs:53-134 | Two trees have one root if and only if they hold one map, however they got there |
| `SparseMerkle.TreeProofSound` | crypto/src/smt.rs:163-192 | A proof accepted against a reachable tree's root carries the stored value, or a collision |
| `SparseMerkle.BitsInjective` | crypto/src/smt.rs:99-102 | Keys with the same bits, most significant first, are the same key |
| `SparseMerkle.LeafCommits` | crypto/src/smt.rs:85-97 | Leaves with one hash have one key and one value, or a named pair of strings collides |
| `SparseMerkle.NodeHalves` | crypto/src/smt.rs:112-132 | The string of a node is the hash of the half with next bit 0, then that of the half with next bit 1, and is no leaf's string |
| `AccountRecord.FlagAndBalance` | crypto/src/account.rs:54-103 | The frozen flag is the top bit of the 16 balance bytes and the balance is the rest |
| `AccountRecord.SetBalanceExact` | crypto/src/account.rs:62-69 | Setting a balance reads back, with the flag kept, if and only if it is below 2^127 |
| `AccountRecord.LargeBalanceFreezes` | crypto/src/account.rs:62-69 | Every balance of 2^127 or more freezes the account and reads as 2^127 less |
| `AccountRecord.SetFrozenKeepsBalance` | crypto/src/account.rs:97-103 | Setting the flag keeps balance, key, nonce and activity |
| `AccountRecord.SetNonce` | crypto/src/account.rs:71-79 | Setting the nonce reads back and keeps the other fields |
| `AccountRecord.SetLastActive` | crypto/src/account.rs:81-91 | Setting the activity reads back and keeps the other fields |
| `AccountRecord.Account.GetBalance` | crypto/src/account.rs:54-60 | Masking the top bit reads the balance |
| `AccountRecord.Account.SetBalance` | crypto/src/account.rs:62-69 | The bytes in place become the record with that balance |
| `AccountRecord.Account.SetFrozen` | crypto/src/account.rs:97-103 | Byte 47 in place gets the flag and nothing else changes |
| `AccountRecord.Account.SetNonceTo` | crypto/src/account.rs:77-79 | The nonce bytes in place, and no others |
| `AccountRecord.Account.SetLastActiveTo` | crypto/src/account.rs:88-91 | The activity bytes in place, and no others |
| `Executor.RunFreeze` | sequencer/src/trace.rs:80-91 | The freeze outcome, errors included |
| `Executor.RunTransfer` | sequencer/src/trace.rs:93-117 | The transfer outcome on account copies, failures and errors included |
| `Executor.RunMint` | sequencer/src/trace.rs:119-142 | The mint outcome, overflow included |
| `Executor.RunBurn` | sequencer/src/trace.rs:182-202 | The burn outcome, insufficient balance included |
| `Executor.FailureIsBlank` | sequencer/src/trace.rs:80-202 | The wrong number of accounts is an error; a failed transaction hands back blank records |
| `Executor.DebitedMeans` | sequencer/src/trace.rs:107-111 | A debit lowers the balance by the amount, keeps the flag and key, and steps the nonce |
| `Executor.CreditedMeans` | sequencer/src/trace.rs:108-112 | A credit is exact and keeps the flag if and only if it stays below 2^127; otherwise it loses 2^127 and freezes |
| `Executor.BurnedMeans` | sequencer/src/trace.rs:182-202 | A burn lowers the balance, and keeps nonce and flag |
| `Executor.NativeMatchesTernary` | sequencer/src/trace.rs:93-117 | On unfrozen records the executor and the ternary transfer succeed together and write the same balance and nonce bytes |
| `Ledger.TransferConserves` | sequencer/src/trace.rs:93-117 | Every carried-out transfer adds what it sends to its own sender and loses 2^127 when its credit reaches 2^127; so it keeps the supply if and only if it moves nothing, or its ends differ and the credit stays below 2^127 |
| `Ledger.SelfTransferCreates` | sequencer/src/node.rs:109-113 | A transfer of 1 from an account of 5 to itself passes admission and makes the supply 6 |
| `Ledger.TransferDestroys` | sequencer/src/trace.rs:107-108 | A transfer of 1 between two accounts, to one that holds 2^127 - 1, passes admission and makes the supply of 2^127 zero |
| `Ledger.SelfTransferAdds` | sequencer/src/node.rs:105-115 | Every covered transfer to oneself adds its amount, less 2^127 when the credit reaches 2^127 |
| `Ledger.MintAdds` | sequencer/src/trace.rs:119-142 | A mint adds its amount, less 2^127 when the credit reaches 2^127, and so exactly if and only if it does not |
| `Ledger.BurnSubtracts` | sequencer/src/trace.rs:182-202 | A burn lowers the supply by its amount |
| `Ledger.FreezeKeepsSupply` | sequencer/src/trace.rs:80-91 | A freeze keeps the supply |
| `Ledger.ExecutedAccounts` | sequencer/src/node.rs:105-115 | The change of the supply by a transaction of any kind, without conditions |
| `Ledger.RunBalances` | sequencer/src/node.rs:103-115 | Over every run, supply plus burned plus 2^127 for each wrap equals initial supply plus minted plus self-transfers, and records stay under their own key |
| `Ledger.LookupIsOwn` | sequencer/src/node.rs:189-202 | The record found for an asset is that asset's own, or two registry keys collide |
| `Ledger.RunConserves` | sequencer/src/node.rs:103-115 | Over any run, supply plus burned equals initial supply plus minted if and only if self-transfers make up for wraps; so whenever no step credits to 2^127 or transfers to itself, however much is minted and burned in all |
| `Ledger.StepAuthority` | sequencer/src/mempool.rs:36-118 | A transaction new in the queue was admitted by this event under the record the registry holds now; one newly executed was at the head of the queue |
| `Ledger.RunAuthority` | sequencer/src/mempool.rs:36-118 | Whatever is queued or executed in a run was admitted by an event of the run, under the registry of that moment |
| `Ledger.SupplyChangeWasSigned` | sequencer/src/mempool.rs:64-118 | For every executed transaction there is the event that admitted it; a mint, burn or freeze was signed by the authority that the registry held for its asset at that event, the asset's own record unless registry keys collide |
| `Ledger.ExecutedWithinAdmitted` | sequencer/src/mempool.rs:36-53 | No transaction is executed, or waits to be, more often than it was admitted |
| `Ledger.StoppedBlockWrites` | sequencer/src/node.rs:103-115 | A mint and a transfer to nobody pass admission; their block stops with the mint written |
| `Ledger.FrozenStepHolds` | sequencer/src/trace.rs:80-202 | One step on a frozen account: the flag stays, transfers do not lower the balance, credits and burns are exact, and nothing else changes it, while no credit reaches 2^127 |
| `Ledger.FrozenRun` | sequencer/src/trace.rs:80-202 | The same at every step of a run until an unfreeze |
| `Ledger.BlockIsRun` | sequencer/src/node.rs:78-115 | Producing a block is a run: executions up to the first refusal, then losses |
| `AccountStatements.CarriedOutExactly` | sequencer/src/trace.rs:80-202 | Which transactions are refused, fail or are carried out, in terms of recipient, balances and flag; a failed one leaves the accounts alone |
| `AccountStatements.EffectOnEach` | sequencer/src/node.rs:153-181 | What a carried-out transaction does to every account: a mint or freeze reaches the recipient it names, or its signer when it names none; balance, nonce, flag and activity of each; nobody else's record changes |
| `AccountStatements.RunStatement` | sequencer/src/node.rs:103-115 | Over every run and for every account: the balance is the initial one plus executed credits less executed debits, less 2^127 for each credit that reached it; the nonce advanced by the transfers it sent to others; the flag is that of the last executed freeze while no credit reached 2^127 |
| `AdmissionRules.AdmittedExactly` | sequencer/src/mempool.rs:64-131 | A transaction is admitted if and only if its asset is registered and it is signed, in turn, unfrozen, authorised, ordered by a court and with travel-rule metadata, each where the rules ask for it |
| `AdmissionRules.RefusalNamesRule` | sequencer/src/mempool.rs:64-131 | Every refusal names a rule that the transaction breaks |
| `AdmissionRules.LookupIsLast` | sequencer/src/node.rs:189-202 | In every run the record found for an asset is the one registered for it last, unless registry keys collide |
| `AdmissionRules.ExecutedWasLawful` | sequencer/src/mempool.rs:64-131 | Every executed transaction was lawful at the event that admitted it, on the accounts of that moment and under the record registered last; so one above the threshold carries metadata |
| `AdmissionRules.FirstInFirstOut` | sequencer/src/mempool.rs:36-53 | In every run the queue is the end of the list of admitted transactions, so the oldest is executed next |
| `LedgerLimits.NonceEffect` | sequencer/src/trace.rs:107-112 | A carried-out transaction steps the nonce of a transfer's sender, unless it is also the recipient, and no other nonce |
| `LedgerLimits.ReadmittedExactly` | sequencer/src/mempool.rs:72-84 | A transfer once admitted is admitted again if and only if its nonce is the next of its sender, who is not frozen |
| `LedgerLimits.ReadmittedAfter` | sequencer/src/mempool.rs:72-84 | After it is executed it is not admitted again, unless it went to its own sender, when it is |
| `LedgerLimits.PaidTwice` | sequencer/src/mempool.rs:36-84 | A covered transfer submitted twice and executed twice is paid twice if and only if the balance covers twice its amount, and once otherwise |
| `LedgerLimits.StepOrdered` | sequencer/src/node.rs:103-115 | A step at which a transfer's nonce is its sender's next keeps the executed transfers of every sender in the order of their nonces |
| `LedgerLimits.PaidOnce` | sequencer/src/node.rs:103-115 | If every transfer is executed at its sender's next nonce, no two executed transfers of one sender share a nonce, over every run |
| `LedgerLimits.CapAndAssetUnread` | sequencer/src/issuer_registry.rs:16 | Admission is the same under every supply cap, and execution under every asset |
| `LedgerLimits.MintAboveCap` | sequencer/src/mempool.rs:98-101 | With a cap and a supply of 1, a mint of 1 passes admission and makes the supply 2 |
| `LedgerLimits.AssetsMix` | sequencer/src/node.rs:153-181 | A unit minted under asset 1 passes admission as a transfer under asset 2 and is paid |
| `LedgerLimits.BurnIgnoresFreeze` | sequencer/src/trace.rs:182-202 | A covered burn is carried out and lowers the balance whether or not the account is frozen, and keeps the flag |
| `Node.RegisterView` | sequencer/src/node.rs:189-192 | Putting an encoded record into the registry tree is registering it |
| `Node.ChainState.GetAccount` | sequencer/src/state.rs:21-34 | The stored record, or a fresh one under the key |
| `Node.ChainState.PutAccount` | sequencer/src/state.rs:36-39 | The map of accounts gets the record under its own key and the root follows |
| `Node.ChainState.AccountProof` | sequencer/src/state.rs:41-43 | The honest proof of the accounts |
| `Node.ChainState.RegisterIssuer` | sequencer/src/node.rs:189-192 | The registry gets the record |
| `Node.ChainState.LookupIssuer` | sequencer/src/node.rs:194-202 | The registry's record for the asset |
| `Node.Mempool.Ingress` | sequencer/src/mempool.rs:36-48 | Queued exactly when there is room and validation admits it; otherwise unchanged, with the reason |
| `Node.Mempool.Drain` | sequencer/src/mempool.rs:50-53 | Takes up to n from the front; taken and left together are the old queue |
| `Node.SequencerNode.AssembleWitness` | sequencer/src/node.rs:153-181 | The records a transaction runs on, or none where assembly fails |
| `Node.SequencerNode.ExecuteTx` | sequencer/src/node.rs:106-108 | Assembly and execution together are the ledger's transition, refusals included |
| `Node.SequencerNode.PutAll` | sequencer/src/node.rs:109-113 | All updated records are written, in order |
| `Node.SequencerNode.ApplyTx` | sequencer/src/node.rs:105-114 | One transaction: refused without a trace, or written as the ledger says |
| `Node.SequencerNode.ExecuteAll` | sequencer/src/node.rs:103-115 | The drained transactions are applied up to the first refusal |
| `Node.SequencerNode.Complete` | sequencer/src/node.rs:117-149 | The signed header extends a chain that light clients accept and commits to the present accounts |
| `Node.SequencerNode.MakeBlock` | sequencer/src/node.rs:78-151 | Empty, stopped or completed, with the accounts, queue, header and chain of each case; a header's previous root is the last header's new root if and only if the accounts were still those of that block |
| `Node.SequencerNode.ProduceBlock` | sequencer/src/node.rs:78-151 | A block is a piece of a ledger run and keeps the node's invariants |
| `Node.SequencerNode.Ingress` | sequencer/src/mempool.rs:36-48 | Admission is a step of a ledger run, and the verdict returned is that of the mempool on the state before |
| `Node.SequencerNode.RegisterIssuer` | sequencer/src/node.rs:189-192 | Registration is a step of a ledger run |
| `Node.ChainGrows` | sequencer/src/node.rs:90-101 | A header that names its parent's full hash extends an acceptable chain |
| `Node.RecordGrows` | sequencer/src/node.rs:90-149 | Numbering, links, signatures, committed roots before and after, and the hashes of the executed list and its traces survive a new header |
| `Node.RootContinuity` | sequencer/src/node.rs:90-101 | The present root is the last header's new root if and only if the present accounts are those at its block |
| `Audit.AcceptedWasStored` | light_client/src/lib.rs:30-65 | Whatever headers and proof are handed in, an accepted balance is the one stored at a completed block of the node, or a named collision |
| `Audit.NodeKeeps` | sequencer/src/node.rs:78-151 | What a node has published is at all times a chain from a first header without parent, each header committing to the accounts its block found and left and to the list that leads from the one to the other |
| `Audit.AcceptedExactly` | light_client/src/lib.rs:30-65 | A balance is returned if and only if the list starts at the genesis root, is linked by full hashes and signed by the expected key, and the proof holds under the last root; it is the balance in the proof, zero for what is no record |
| `Audit.OtherGenesisRefused` | light_client/src/lib.rs:44-48 | The verdict is a genesis mismatch if and only if the first header has another previous root |
| `Audit.AcceptedIsPiece` | light_client/src/lib.rs:30-65 | An accepted list is a piece of the node's chain that starts at a block whose previous root is the client's genesis, or headers collide or one hashes to zero |
| `Audit.AcceptedStartsAt` | light_client/src/lib.rs:44-48 | That block found exactly the accounts of the client's genesis, or a named collision |
| `Audit.PieceIsAccepted` | light_client/src/lib.rs:30-65 | Every piece of the chain is accepted, with the balance that its last block left, by exactly the clients whose genesis is the root its first block found |
| `Audit.WholeChainFromEmpty` | light_client/src/lib.rs:44-48 | A client that starts from the empty ledger accepts the whole chain if and only if the first completed block found the ledger empty, up to a named collision |
| `Audit.HeaderTellsBlock` | sequencer/src/block.rs:60-69 | A list with the hash in a header is the list executed at that block and leads from the accounts it found to those it left, or two lists collide |
| `Audit.EpochIsSeconds` | sequencer/src/node.rs:104 | The epoch is the time in whole seconds if and only if that fits in 32 bits |
| `Audit.PresentCommits` | sequencer/src/state.rs:21-43 | The root of the accounts a node holds now is behind strings it hashed, so the next row applies to them |
| `Audit.OwnChainIsAccepted` | light_client/src/lib.rs:30-65 | The node's headers and its present proof are accepted with the present balance, for every key, if and only if the accounts are those at the last completed block |
| `LightClient.VerifyHeader` | light_client/src/header.rs:69-78 | Accepts exactly headers of the expected signer with a valid signature |
| `LightClient.VerifyBalance` | light_client/src/lib.rs:30-65 | Accepts exactly linked and signed lists with a proof that verifies, returns the proof's balance, and reports the first fault otherwise |
| `LightClient.VerdictIsUnique` | light_client/src/lib.rs:30-65 | The conditions of the verdicts exclude each other |
| `LightClient.StoredBalance` | sequencer/src/state.rs:21-34 | What is stored for a key reads as the account's balance, zero for absent keys |
| `LightClient.AcceptedBalance` | light_client/src/lib.rs:51-64 | Under a ledger's root, an accepted balance is that ledger's, or a named collision |
| `LightClient.HonestIsAccepted` | light_client/src/lib.rs:30-65 | A linked and signed list with the honest proof is accepted with the right balance |
| `LightClient.HeadCommits` | light_client/src/header.rs:84-88 | Lists of one length whose last headers hash alike are the same list, or two headers collide |
| `LightClient.AcceptedListsAgree` | light_client/src/lib.rs:30-65 | Of two accepted lists whose last headers hash alike, the shorter is the end of the longer, or two headers collide |
| `ProposalLog.StepIsSafe` | agent_protocol/src/state_machine.rs:83-237 | Every operation keeps entries well-formed, never drops one, never changes its proposal and never leaves a final state |
| `ProposalLog.FailureIsHarmless` | agent_protocol/src/state_machine.rs:83-217 | A failed call changes nothing, except that a late accept expires its entry |
| `ProposalLog.LogIsFirstCome` | agent_protocol/src/state_machine.rs:83-237 | Over every run a log holds exactly the proposals that came verified, and the state of each is decided by the first answer of its addressee, or the first sweep past its end, and after an accept in time by the first execute of its proposer |
| `ProposalLog.VerdictMeans` | agent_protocol/src/state_machine.rs:95-217 | Exactly which messages succeed, and what each error says about the message and the log |
| `ProposalLog.RunIsSafe` | agent_protocol/src/state_machine.rs:83-237 | Both over every run from the empty log, between any two points of it |
| `ProposalLog.ProposalBook.Record` | agent_protocol/src/state_machine.rs:83-91 | Records a verified proposal under its hash, keeping an existing entry |
| `ProposalLog.ProposalBook.Accept` | agent_protocol/src/state_machine.rs:95-130 | Remove and reinsert amount to the transition, in all branches |
| `ProposalLog.ProposalBook.Reject` | agent_protocol/src/state_machine.rs:132-156 | The same for rejects |
| `ProposalLog.ProposalBook.Counter` | agent_protocol/src/state_machine.rs:158-185 | The same for counter-proposals |
| `ProposalLog.ProposalBook.Execute` | agent_protocol/src/state_machine.rs:187-217 | The same for executes |
| `ProposalLog.ProposalBook.Expire` | agent_protocol/src/state_machine.rs:222-237 | Expires exactly the overdue proposals and returns each once |
| `AgentProtocol.StepKeepsInv` | agent_sdk/src/agent.rs:140-307 | Every lock section of every handler keeps the system's invariants |
| `AgentProtocol.AlwaysInv` | agent_sdk/src/agent.rs:140-307 | They hold in every state of every behaviour |
| `AgentProtocol.AcceptAgreement` | agent_sdk/src/agent.rs:165-274 | Accepted or executed anywhere: so in the addressee's log, with the same proposal and accept, up to signatures and a named collision |
| `AgentProtocol.ExecuteAgreement` | agent_sdk/src/agent.rs:226-307 | Executed anywhere: so in the proposer's log, with the same proposal and the same execute |
| `AgentProtocol.AtMostOneExecute` | agent_sdk/src/agent.rs:226-274 | An agent sends one execute per proposal hash at most, under replay and interleaving |
| `AgentProtocol.ReputationIsEarned` | agent_sdk/src/agent.rs:278-307 | Completed plus lost disputes of a proposer never exceed its executed proposals in the log |
| `AgentProtocol.ReputationIsExact` | agent_sdk/src/agent.rs:278-307 | In every behaviour, the completed and lost counters of a proposer are the numbers of its credited proposals whose claim the contract confirms and does not confirm, up to saturation |
| `AgentProtocol.HonestExecuteIsSafe` | agent_protocol/src/dispute.rs:104-143 | A valid dispute with the evidence of an execute that an agent sent is dismissed, or proposals collide |
| `AgentProtocol.DisputeExactly` | agent_protocol/src/dispute.rs:104-143 | A valid dispute over an execute that an agent sent: fails with the contract, is dismissed when the contract gives the claimed output on the dispute's evidence, and otherwise slashes |
| `AgentProtocol.OtherEvidenceSlashes` | agent_protocol/src/dispute.rs:121-142 | After any properly completed deal, evidence on which the contract gives another output slashes the executor |
| `AgentProtocol.DealCompletes` | agent_sdk/src/agent.rs:140-307 | Every properly signed deal has a behaviour that ends executed on both sides, with the proposer credited once |
| `AgentConduct.SentWasAsked` | agent_sdk/src/agent.rs:140-274 | Whatever an agent sent in a behaviour, a call on it asked for: an accept was a yes to a proposal received from a key not revoked, a reject a no with its reason or a revoked key, an execute carries the call's evidence after an accept was received |
| `AgentConduct.RevokedIsTurnedAway` | agent_sdk/src/agent.rs:165-195 | A proposal from a revoked key is answered by a reject when it verifies, and leaves no trace |
| `AgentConduct.DecisionTakesEffect` | agent_sdk/src/agent.rs:195-222 | A signed decision on a waiting proposal enters the log and is sent; a late yes expires the proposal and sends nothing |
| `AgentConduct.ExecutionTakesEffect` | agent_sdk/src/agent.rs:226-274 | An execution of an accepted proposal of one's own enters the log with the contract's output and is sent |
| `AgentConduct.RegisteringTakesEffect` | agent_sdk/src/agent.rs:101-103 | A registered contract is held, and nothing else changes |
| `AgentConduct.EarlyAcceptCounts` | agent_protocol/src/state_machine.rs:95-130 | An accept before the proposal's beginning is taken |
| `AgentConduct.CreditedExactly` | agent_sdk/src/agent.rs:278-307 | A claim is counted if and only if its check was finished with an output of one's own, whatever the outcome |
| `AgentConduct.DisputeNeedsSignatures` | agent_protocol/src/dispute.rs:104-143 | A dispute is resolved if and only if proposal, execute and dispute are signed, its hash is the execute's and the contract gives an output; what each refusal lacks |
| `AgentConduct.SlashBringsOther` | agent_protocol/src/dispute.rs:104-143 | A slashed agent did send the execute and told the truth in it, so the dispute brought other evidence or another proposal, or a collision, or evidence of 2^32 bytes |
| `AgentConduct.OtherProposalSlashes` | agent_protocol/src/dispute.rs:104-143 | Another signed proposal with another contract slashes the executor of a completed deal on its own evidence |
| `Agents.AgentSdk.RegisterContract` | agent_sdk/src/agent.rs:101-103 | Registering a contract is one protocol step |
| `Agents.AgentSdk.Revoke` | agent_wallet/src/revocation.rs:107-114 | The key is revoked, and nothing else changes |
| `Agents.AgentSdk.MakeProposal` | agent_sdk/src/agent.rs:140-161 | Signs and records the proposal: one protocol step |
| `Agents.AgentSdk.HandlePropose` | agent_sdk/src/agent.rs:165-222 | One or two protocol steps: receive, then decide; the messages sent and the result are those of the steps, a reject with the reason given |
| `Agents.AgentSdk.HandleAccept` | agent_sdk/src/agent.rs:226-274 | One or two protocol steps: receive, then execute; the result is the log's verdict, or why the contract gave no output |
| `Agents.AgentSdk.HandleExecute` | agent_sdk/src/agent.rs:278-307 | One or two protocol steps: receive, then credit; the result is the log's error, why the contract gave no output, or whether its output is the claimed one |
| `Agents.SessionIsBehaviour` | agent_sdk/src/agent.rs:101-307 | Whatever any number of agents reach by calls one after another, they reach in a behaviour of the protocol |
| `Agents.SessionIsSafe` | agent_sdk/src/agent.rs:101-307 | So the protocol's invariants hold after every call |
| `SpendPolicy.QueueUnderCap` | agent_wallet/src/policy.rs:140-185 | With any clock the queue's total stays under the cap, so saturation never occurs |
| `SpendPolicy.TrackerMatchesHistory` | agent_wallet/src/policy.rs:140-206 | With a clock that never goes back, every verdict is that of filtering the full history |
| `SpendPolicy.WindowUnderCap` | agent_wallet/src/policy.rs:140-185 | With a safe clock, the amounts the tracker admitted in any window total at most the cap |
| `SpendPolicy.SafeClocksExactly` | agent_wallet/src/policy.rs:140-185 | The clocks under which every policy and every sequence of calls keeps its windows are exactly those that never pass the window of a reading and then return to within a window of it |
| `SpendPolicy.TrapBreaks` | agent_wallet/src/policy.rs:140-185 | On any other clock, calls that read it let twice the cap through one window |
| `SpendPolicy.MonotoneWindow` | agent_wallet/src/policy.rs:140-206 | A clock that never goes back is safe, and what the tracker admits is then the reference's history |
| `SpendPolicy.HistoryUnderCap` | agent_wallet/src/policy.rs:163-185 | The reference that filters its full history keeps every window with any clock |
| `SpendPolicy.QueueForgets` | agent_wallet/src/policy.rs:140-149 | With any clock the queue is what was admitted, less a beginning whose windows the clock has passed |
| `SpendPolicy.ClockMustNotGoBack` | agent_wallet/src/policy.rs:140-185 | Spending at 0, asking at 11 and spending at 5 lets 200 through a window of 10 with cap 100 |
| `SpendPolicy.SpendingTracker.EvictExpired` | agent_wallet/src/policy.rs:140-149 | Drops the entries at the front that are older than the window |
| `SpendPolicy.SpendingTracker.CurrentWindowTotal` | agent_wallet/src/policy.rs:152-159 | Evicts and sums, saturating |
| `SpendPolicy.SpendingTracker.Try` | agent_wallet/src/policy.rs:163-185 | The queue step with its verdict, expiry and overflow included |
| `SpendPolicy.SpendingTracker.AdmitCall` | agent_wallet/src/policy.rs:190-206 | The same behind the allow-lists |
| `PolicyRules.VerdictSays` | agent_wallet/src/policy.rs:163-206 | What each verdict on a spend says about lists, expiry, total and cap, in the order of the checks |
| `PolicyRules.AdmittedExactly` | agent_wallet/src/policy.rs:80-87 | A spend is admitted if and only if contract and counterparty are on their lists, where there are lists, the policy has not run out, and the total with it stays within the cap |
| `PolicyRules.TakenIsPermitted` | agent_wallet/src/policy.rs:163-206 | Over every run with any clock, whatever is taken was on the lists and before the expiry |
| `PolicyRules.AdmittedOnTime` | agent_wallet/src/policy.rs:140-206 | With a clock that never goes back, a spend is admitted if and only if it is permitted and fits with the spends admitted before it in its window |
| `Network.SparseIsDense` | ternary_vm/src/network.rs:15-77 | The index lists of every layer of proper shape compute the dense matrix product with bias and ReLU, where a column weighs as often as it is listed as positive less as often as negative |
| `Network.OrderFree` | ternary_vm/src/network.rs:26-77 | The order of the index lists does not matter, repeated columns included |
| `Network.TernaryExactly` | ternary_vm/src/network.rs:15-24 | Of disjoint lists, every weight is -1, 0 or +1, and the documented one, if and only if no column is listed twice |
| `Network.SignProductExactly` | ternary_vm/src/network.rs:15-77 | Of disjoint lists, a row is the documented {-1, 0, +1} product on all inputs if and only if no column is listed twice |
| `Network.SmallRowFits` | ternary_vm/src/network.rs:50-70 | No partial sum overflows when bias and inputs of the row are small enough together |
| `Network.Forward` | ternary_vm/src/network.rs:40-77 | Succeeds exactly when shapes match and no partial sum overflows, then yields the layer's output; the error names the first offending row |
| `Network.StackIsDense` | ternary_vm/src/network.rs:101-118 | A stack of layers of proper shape is the composition of dense products |
| `Network.RunNetwork` | ternary_vm/src/network.rs:101-118 | Succeeds exactly when every layer does, with the stack's output; the error names the first layer and row at fault |
| `Network.Argmax` | ternary_vm/src/network.rs:136-151 | The first index of the maximum; an error only for no logits |
| `ByteNetworks.Encode` | ternary_vm/src/thermo.rs:20-29 | The thermometer of a clamped value |
| `ByteNetworks.Decode` | ternary_vm/src/thermo.rs:37-46 | The leading run; the inverse of encoding |
| `ByteNetworks.BuildParallelRelu` | ternary_vm/src/primitives/byte_add_with_carry.rs:114-136 | The loop builds the layer whose meaning is proved |
| `ByteNetworks.BuildThermoDecode` | ternary_vm/src/primitives/byte_add_with_carry.rs:140-156 | The same for the third layer |
| `ByteNetworks.ThermoDecodeOut` | ternary_vm/src/primitives/byte_add_with_carry.rs:114-156 | Layers two and three turn an integer into its thermometer |
| `ByteNetworks.BuildAdd` | ternary_vm/src/primitives/byte_add_with_carry.rs:69-180 | Builds the adder's four layers |
| `ByteNetworks.AddMeaning` | ternary_vm/src/primitives/byte_add_with_carry.rs:69-180 | They map bytes and carry to the one-hot sum byte and the carry |
| `ByteNetworks.EncodeInput` | ternary_vm/src/primitives/byte_add_with_carry.rs:183-196 | Three thermometers; a carry above one is an error |
| `ByteNetworks.DecodeOutput` | ternary_vm/src/primitives/byte_add_with_carry.rs:200-215 | The first maximum among 256 entries and a bit, with the shape and range errors; a one-hot byte is read back |
| `ByteNetworks.RunAdd` | ternary_vm/src/primitives/byte_add_with_carry.rs:219-223 | The built adder never errs on a carry bit and adds |
| `ByteNetworks.BuildSub` | ternary_vm/src/primitives/byte_sub_with_borrow.rs:53-167 | Builds the subtractor's four layers |
| `ByteNetworks.SubMeaning` | ternary_vm/src/primitives/byte_sub_with_borrow.rs:53-167 | They map bytes and borrow to the one-hot difference byte and the borrow |
| `ByteNetworks.RunSub` | ternary_vm/src/primitives/byte_sub_with_borrow.rs:201-205 | The built subtractor never errs on a borrow bit and subtracts |
| `FreezeNetworks.BuildSetup` | ternary_vm/src/primitives/freeze_setup.rs:38-66 | Builds the projection layer |
| `FreezeNetworks.SetupMeaning` | ternary_vm/src/primitives/freeze_setup.rs:54-66 | It yields the flag and byte 47 of every witness |
| `FreezeNetworks.SetupEncode` | ternary_vm/src/primitives/freeze_setup.rs:68-83 | The thermometers of the witness; a flag above one is an error |
| `FreezeNetworks.RunSetup` | ternary_vm/src/primitives/freeze_setup.rs:107-111 | The built network returns flag and byte 47 |
| `FreezeNetworks.BuildHalves` | ternary_vm/src/primitives/freeze_apply.rs:83-115 | The loops build the first layer |
| `FreezeNetworks.HalvesRepeats` | ternary_vm/src/primitives/freeze_apply.rs:88-98 | Row 0 of that layer has disjoint lists with input 130 listed twice: its weight is -2 and the row is not the {-1, 0, +1} product |
| `FreezeNetworks.BuildApply` | ternary_vm/src/primitives/freeze_apply.rs:61-133 | Builds the two layers |
| `FreezeNetworks.ApplyMeaning` | ternary_vm/src/primitives/freeze_apply.rs:83-133 | The two layers yield the low seven bits and the flag |
| `FreezeNetworks.RunApply` | ternary_vm/src/primitives/freeze_apply.rs:172-176 | The built network returns the low seven bits with the flag on top |
| `FreezeNetworks.FreezeByte` | ternary_vm/src/primitives/freeze_apply.rs:135-176 | Setup then apply yields the byte that setting the flag writes |
| `FreezeNetworks.FreezeByteMeans` | crypto/src/account.rs:97-103 | Writing that byte sets the flag and leaves the balance and all else |
| `Chains.AddChain` | agent_contracts/src/guarded.rs:30-43 | At any width n, a + b = sum + carry * 256^n |
| `Chains.SubChain` | agent_contracts/src/guarded.rs:15-28 | At any width n, a - b = diff - borrow * 256^n |
| `Chains.BorrowDecides` | agent_contracts/src/guarded.rs:15-28 | The borrow is zero if and only if a >= b |
| `Chains.CarryDecides` | agent_contracts/src/guarded.rs:30-43 | The carry is zero if and only if the sum fits |
| `Chains.TransferCheck` | ternary_vm/src/primitives/transfer_check.rs:30-42 | One if and only if the balance covers the amount |
| `Chains.TransferFinalize` | ternary_vm/src/primitives/transfer_finalize.rs:36-45 | The nonce plus one modulo 256^n |
| `Chains.U64Ge` | agent_contracts/src/guarded.rs:47-57 | One if and only if a >= b, by zero extension |
| `Contracts.WrappedTransfer` | agent_contracts/src/guarded.rs:67-89 | Never errs; debit, credit and nonce plus one when covered and fitting, else 40 zero bytes |
| `Contracts.GuardedIsExact` | agent_contracts/src/guarded.rs:67-89 | The result is fixed by the input, is the no-op or conserves the two-party total and steps the nonce |
| `Contracts.TimeLockedRelease` | agent_contracts/src/conditional.rs:67-91 | Fires exactly from the unlock time on |
| `Contracts.Multisig2of3` | agent_contracts/src/conditional.rs:131-158 | Fires exactly when the three flags are bits and two are set |
| `Contracts.ConditionalPayment` | agent_contracts/src/conditional.rs:196-217 | Fires exactly when the flag byte is one |
| `Contracts.Swap` | agent_contracts/src/swap.rs:103-149 | Never errs; both legs or 72 zero bytes, firing exactly when both sides can pay and no credit overflows |
| `Contracts.SwapConserves` | agent_contracts/src/swap.rs:103-149 | Each asset's two-party total is conserved |
| `Contracts.CreditMeaning` | agent_contracts/src/inference.rs:116-165 | The decision network is income + collateral - debt >= 500 and flags <= 10, for all features |
| `Contracts.RiskGatedTransfer` | agent_contracts/src/inference.rs:239-276 | Fires exactly when that rule holds |
| `CPrimitives.AddInPlace` | primitives/common.h:132-145 | In place, also on one array: a + b = sum + carry * 256^n |
| `CPrimitives.SubInPlace` | primitives/common.h:150-163 | In place: a - b = diff - borrow * 256^n, and the borrow decides a >= b |
| `CPrimitives.Geq` | primitives/common.h:166-177 | Most significant byte first: a >= b |
| `CPrimitives.IncInPlace` | primitives/common.h:180-190 | Plus one modulo 256^n, stopping at the first byte that does not overflow |
| `CPrimitives.CheckCovers` | primitives/transfer_check.c:21-39 | The full scan that remembers the first difference: a >= b |
| `CPrimitives.ComparisonsAgree` | primitives/transfer_check.c:21-39 | The most-significant-first comparison, the least-significant-first borrow and the integers agree |
| `Weights.PushStarts` | ternary_vm/src/weights.rs:163-168 | The running pointer writes the row starts and the end |
| `Weights.PushColumns` | ternary_vm/src/weights.rs:169-173 | The nested loops write all columns |
| `Weights.PushLayer` | ternary_vm/src/weights.rs:155-189 | One layer's bytes are appended |
| `Weights.PackWeights` | ternary_vm/src/weights.rs:139-196 | The whole file and its digest |
| `Weights.RowsOf` | ternary_vm/src/weights.rs:300-311 | Row pointers and columns give the rows back |
| `Weights.RawRead` | ternary_vm/src/weights.rs:278-298 | Reading gives back any fields that fit the format |
| `Weights.RawFrom` | ternary_vm/src/weights.rs:278-298 | Whatever is read as a layer's fields stands in the input in exactly that way |
| `Weights.SliceRows` | ternary_vm/src/weights.rs:300-311 | Cuts the columns, or reports a pointer out of range |
| `Weights.Cursor.Take` | ternary_vm/src/weights.rs:360-370 | Takes n bytes, or ends without moving |
| `Weights.Cursor.ReadNumbers` | ternary_vm/src/weights.rs:284-298 | Reads k integers, or ends |
| `Weights.Cursor.ReadOneLayer` | ternary_vm/src/weights.rs:278-320 | Reads a layer on every input, well-formed or not |
| `Weights.Cursor.ReadAllLayers` | ternary_vm/src/weights.rs:276-321 | Reads the counted layers, or reports the first failure |
| `Weights.UnpackWeights` | ternary_vm/src/weights.rs:238-344 | The outcome on every byte string, each error included |
| `WeightFormat.UnpackOfPack` | ternary_vm/src/weights.rs:139-344 | Unpacking a packed network returns the same layers and header with both digests |
| `WeightFormat.PayloadInjective` | ternary_vm/src/weights.rs:139-196 | Different networks have different payloads |
| `WeightFormat.DigestCommits` | ternary_vm/src/weights.rs:191-195 | Equal digests mean equal networks, or the two payloads collide |
| `WeightFormat.LayersMean` | ternary_vm/src/weights.rs:276-321 | Reading packed fields gives their layers and what follows them, or the panic at the first pointer astray |
| `WeightFormat.FileMeans` | ternary_vm/src/weights.rs:238-344 | A whole file unpacks to its header and layers; one whose row pointers lead astray panics |
| `WeightFormat.FileCame` | ternary_vm/src/weights.rs:238-344 | Every payload that is read to either result is such a file |
| `WeightFormat.PanicsExactly` | ternary_vm/src/weights.rs:300-311 | The reader panics on exactly the sealed files whose row pointers lead astray |
| `WeightFormat.BadPointerPanics` | ternary_vm/src/weights.rs:300-311 | A file of one row that claims a column it does not have makes it panic |
| `WeightFormat.TrailingBytesIgnored` | ternary_vm/src/weights.rs:276-344 | Any bytes after the last layer, under their own digest, change no layer and no header field |
| `WeightFormat.RepackExactly` | ternary_vm/src/weights.rs:139-344 | Unpacking and packing again gives the same bytes if and only if the version is 1, activation bytes are bits, row pointers run from the first column to the last, and nothing trails |
| `WeightFormat.ReadyToRun` | ternary_vm/src/network.rs:26-77 | An unpacked layer can be run if and only if its columns are below its input dimension |
| `Encodings.WriteCanonical` | sequencer/src/tx.rs:42-77 | The pushes onto one buffer produce the canonical bytes |
| `Encodings.CanonicalPrefix` | sequencer/src/tx.rs:42-77 | Transactions whose canonical bytes start one string agree on every signed field |
| `Encodings.TxListInput` | sequencer/src/block.rs:60-69 | The streamed bytes of a transaction list |
| `Encodings.TxListInjective` | sequencer/src/block.rs:60-69 | Equal bytes mean equal lists, signatures included |
| `Encodings.WritePolicy` | agent_wallet/src/policy.rs:58-78 | The pushes and loops produce the policy bytes |
| `Encodings.PolicyInjective` | agent_wallet/src/policy.rs:58-78 | Equal bytes mean equal policies |
| `Encodings.ProposeInjective` | agent_protocol/src/message.rs:139-155 | Equal bytes mean equal proposals, up to the signature, at any length |
| `Encodings.AcceptInjective` | agent_protocol/src/message.rs:199-205 | The same for accepts |
| `Encodings.RejectInjective` | agent_protocol/src/message.rs:224-231 | The same for rejects, at any length |
| `Encodings.CounterInjective` | agent_protocol/src/message.rs:256-263 | The same for counter-proposals, at any length |
| `Encodings.ExecuteInjective` | agent_protocol/src/message.rs:288-296 | The same for executes with evidence below 2^32 bytes |
| `Encodings.DisputeInjective` | agent_protocol/src/dispute.rs:42-51 | The same for disputes with evidence below 2^32 bytes |
| `Encodings.TagOf` | agent_protocol/src/message.rs:139-296 | The tag tells the kinds of message apart |
| `Encodings.MessageInjective` | agent_protocol/src/message.rs:139-296 | Equal bytes mean the same kind and the same fields |
| `Encodings.HeaderInjective` | sequencer/src/block.rs:32-44 | Equal signing bytes mean equal headers |
| `Encodings.FullHeaderInjective` | light_client/src/header.rs:84-88 | Equal full bytes mean equal signed headers |
| `Layouts.TxLayout` | sequencer/src/tx.rs:42-77 | Kind, asset, nonce, signer, recipient, amount, flag and the optional fields of a transaction stand at their offsets, integers little-endian |
| `Layouts.HeaderLayout` | sequencer/src/block.rs:32-44 | The nine fields of a header stand at their offsets |
| `Layouts.ProposeLayout` | agent_protocol/src/message.rs:139-155 | The fields of a proposal stand at their offsets after its tag, integers big-endian |
| `Layouts.AcceptLayout` | agent_protocol/src/message.rs:199-205 | The same for accepts |
| `Layouts.RejectLayout` | agent_protocol/src/message.rs:224-231 | The same for rejects |
| `Layouts.CounterLayout` | agent_protocol/src/message.rs:256-263 | The same for counter-proposals |
| `Layouts.ExecuteLayout` | agent_protocol/src/message.rs:288-296 | The same for executes |
| `Layouts.DisputeLayout` | agent_protocol/src/dispute.rs:42-51 | The same for disputes |
| `Layouts.PolicyLayout` | agent_wallet/src/policy.rs:58-78 | The same for the fixed part of a policy and its number of contracts |
| `Layouts.FileLayout` | ternary_vm/src/weights.rs:139-153 | Magic, version, name and counts of packed weights stand at their offsets, integers big-endian |
| `Layouts.LayerLayout` | ternary_vm/src/weights.rs:155-189 | So do dimensions, activation, counts, row pointers, columns and biases of a layer, the positive rows before the negative |
| `Layouts.TwosComplement` | ternary_vm/src/weights.rs:186-189 | Biases are written in two's complement |

## Left out

- The internals of BLAKE3, ed25519 and the other primitives: parameters here. Unforgeability is a condition on each message or header handed in: if a key of the system verifies it, the key's owner has signed those bytes.
- An unreadable public key is not told apart from a bad signature, and error texts are not modelled.
- Multi-asset execution: witness assembly always refuses these transactions, which is modelled, so the executor's own multi-asset branch is never reached.
- Agents.AgentSdk.HandleAccept: a call runs without interruption; the interleaving of lock sections is in `AgentProtocol`, where each section is its own step. The same holds for the other handlers.
- Agents.AgentSdk.Revoke: revocation records and their signatures are not modelled, only the set of keys they revoke.
- Layouts.PolicyLayout: the lists behind the counts are covered by injectivity only; fields of 2^32 bytes or more, whose length is cut, are outside the layouts.
- Counter-proposals, rejects and expiry reach a log as single steps; no handler of the agent produces them beyond the rejects modelled.
- The text form of issuer records is a parameter required to be lossless.
- Weights.PackWeights: a network whose running row pointer reaches 2^32 makes the program panic; exactly these are excluded by the precondition, along with columns that do not fit their 32-bit type.
- Executor.RunNative: the subprocess executor, and with it real trace hashes, is not modelled; the trace hash is the native marker.
- The `safety` counter of the C comparison never stops the loop at its width of 16 and is dropped; pointers that overlap in part are not modelled.
- Escrow and plain transfer contracts, reputation scores, revocation and rotation records, transports, remote calls, configuration, consensus stubs: easy or foreign.
- Running out of memory, and lengths beyond the machine's word.
