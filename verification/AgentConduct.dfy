/**
 What agents do and why, over whole behaviours (agent_sdk/src/agent.rs,
 agent_protocol/src/dispute.rs): nothing is sent that a call did not ask for, decisions take
 effect, reputation counts every verdict that was reached, and disputes need signatures.
 */
module AgentConduct {
  import opened Bytes
  import opened Hashing
  import opened Encodings
  import opened ProposalLog
  import opened AgentProtocol

  type Acts = seq<(PublicKey, Act)>

  // ----- nothing is sent unasked -----

  /** Before step `j`, agent `k` received a proposal with this hash from a key that was not revoked. */
  ghost predicate Welcomed(env: Env, acts: Acts, j: nat, k: PublicKey, hash: Hash) {
    exists i :: 0 <= i < j && i < |acts| && acts[i].0 == k && acts[i].1.RecvPropose? && !acts[i].1.revoked
                && ProposalHash(env.h, acts[i].1.p) == hash
  }

  /** Before step `j`, agent `k` received an accept of this proposal. */
  ghost predicate Heard(acts: Acts, j: nat, k: PublicKey, hash: Hash) {
    exists i :: 0 <= i < j && i < |acts| && acts[i].0 == k && acts[i].1.RecvAccept? && acts[i].1.a.proposalHash == hash
  }

  /** Step `j` is a call on agent `k` that asks for the message. */
  ghost predicate Asks(env: Env, acts: Acts, j: nat, k: PublicKey, m: Message) {
    && j < |acts| && acts[j].0 == k
    && var act := acts[j].1;
       match m
       case ProposeMsg(p) => act == SendPropose(p)
       case AcceptMsg(a) => act.Decide? && act.yes && act.at == a.acceptedAt && Welcomed(env, acts, j, k, a.proposalHash)
       case RejectMsg(r) =>
         || (act.Decide? && !act.yes && act.reason == r.reason && act.at == r.rejectedAt && Welcomed(env, acts, j, k, r.proposalHash))
         || (act.RecvPropose? && act.revoked && act.at == r.rejectedAt && ProposalHash(env.h, act.p) == r.proposalHash && r.reason == REVOKED)
       case ExecuteMsg(e) => act.SendExecute? && act.evidence == e.evidence && act.at == e.executedAt && Heard(acts, j, k, e.proposalHash)
       case _ => false
  }

  ghost predicate Asked(env: Env, acts: Acts, n: nat, k: PublicKey, m: Message) {
    exists j: nat :: j < n && Asks(env, acts, j, k, m)
  }

  /** What is left to do was begun by a call. */
  ghost predicate Begun(env: Env, acts: Acts, n: nat, k: PublicKey, t: Task) {
    match t
    case Deciding(p) => Welcomed(env, acts, n, k, ProposalHash(env.h, p))
    case Executing(a, _) => Heard(acts, n, k, a.proposalHash)
    case Crediting(_, _) => true
  }

  lemma BegunStays(env: Env, acts: Acts, n: nat, k: PublicKey, t: Task)
    requires Begun(env, acts, n, k, t)
    ensures Begun(env, acts, n + 1, k, t)
  {
    hide ProposalHash;
  }

  /** A task that a step leaves was there before, or is begun by the step. */
  lemma TaskBegins(env: Env, acts: Acts, n: nat, k: PublicKey, ag: Agent, id: nat)
    requires n < |acts| && acts[n].0 == k && HasTask(ag, acts[n].1) && id in NextAgent(env, k, ag, acts[n].1).tasks
    requires id in ag.tasks ==> Begun(env, acts, n, k, ag.tasks[id])
    ensures Begun(env, acts, n + 1, k, NextAgent(env, k, ag, acts[n].1).tasks[id])
  {
    hide Step, ProposalHash;
    if id in ag.tasks {
      BegunStays(env, acts, n, k, ag.tasks[id]);
    }
  }

  lemma {:induction false} TasksWereBegun(env: Env, trace: seq<World>, acts: Acts, n: nat, k: PublicKey, id: nat)
    requires Behaviour(env, trace, acts) && n < |trace| && k in trace[n].agents && id in trace[n].agents[k].tasks
    ensures Begun(env, acts, n, k, trace[n].agents[k].tasks[id])
  {
    hide NextAgent, Sends, Begun;
    if n > 0 {
      var w, move := trace[n - 1], acts[n - 1];
      assert Enabled(env, w, move.0, move.1) && trace[n] == Next(env, w, move.0, move.1);
      if id in w.agents[k].tasks {
        TasksWereBegun(env, trace, acts, n - 1, k, id);
      }
      if move.0 == k {
        TaskBegins(env, acts, n - 1, k, w.agents[k], id);
      } else {
        BegunStays(env, acts, n - 1, k, w.agents[k].tasks[id]);
      }
    }
  }

  /** What a step sends, the step asks for. */
  lemma StepAsks(env: Env, acts: Acts, n: nat, k: PublicKey, ag: Agent)
    requires n < |acts| && acts[n].0 == k && HasTask(ag, acts[n].1) && Sends(env, k, ag, acts[n].1).Some?
    requires forall id :: id in ag.tasks ==> Begun(env, acts, n, k, ag.tasks[id])
    ensures Asks(env, acts, n, k, Sends(env, k, ag, acts[n].1).value)
  {
    hide Step, ProposalHash, Welcomed, Heard;
    var act := acts[n].1;
    assert act.Decide? || act.SendExecute? ==> Begun(env, acts, n, k, ag.tasks[act.id]);
  }

  /**
   Nothing is sent unasked: behind every accept, reject, proposal and execute that an agent
   sent in a behaviour stands a call on that agent.  An accept was decided by a yes, on a
   proposal received from a key that was not revoked; an execute carries the evidence of the
   call, for a proposal whose accept was received.
   */
  lemma {:induction false} SentWasAsked(env: Env, trace: seq<World>, acts: Acts, n: nat, i: nat)
    requires Behaviour(env, trace, acts) && n < |trace| && i < |trace[n].sent|
    ensures Asked(env, acts, n, trace[n].sent[i].from, trace[n].sent[i].msg)
  {
    hide NextAgent, Sends, Asks, Begun;
    if n > 0 {
      var w, move := trace[n - 1], acts[n - 1];
      assert Enabled(env, w, move.0, move.1) && trace[n] == Next(env, w, move.0, move.1);
      if i < |w.sent| {
        SentWasAsked(env, trace, acts, n - 1, i);
      } else {
        forall id | id in w.agents[move.0].tasks
          ensures Begun(env, acts, n - 1, move.0, w.agents[move.0].tasks[id])
        {
          TasksWereBegun(env, trace, acts, n - 1, move.0, id);
        }
        StepAsks(env, acts, n - 1, move.0, w.agents[move.0]);
      }
    }
  }

  // ----- decisions take effect -----

  /** A proposal from a revoked key is answered by a reject when it verifies, and leaves no trace. */
  lemma RevokedIsTurnedAway(env: Env, k: PublicKey, ag: Agent, p: Propose, at: u64, sig: Signature, id: nat)
    requires id !in ag.tasks
    ensures NextAgent(env, k, ag, RecvPropose(p, true, at, sig, id)) == ag
    ensures Sends(env, k, ag, RecvPropose(p, true, at, sig, id))
         == if env.ver(p.from, ProposeBytes(p), p.sig)
            then Some(RejectMsg(Reject(ProposalHash(env.h, p), k, REVOKED, at, sig))) else None
  {
  }

  /** A decision on a waiting proposal, properly signed by its addressee, enters the log and is sent; a late yes expires it. */
  lemma DecisionTakesEffect(env: Env, k: PublicKey, ag: Agent, id: nat, yes: bool, reason: Bytes, at: u64, sig: Signature)
    requires id in ag.tasks && ag.tasks[id].Deciding?
    requires var p := ag.tasks[id].propose;
             var hash := ProposalHash(env.h, p);
             && p.to == k && hash in ag.log && ag.log[hash] == Proposed(p)
             && (if yes then env.ver(k, AcceptBytes(Accept(hash, k, at, sig)), sig)
                 else env.ver(k, RejectBytes(Reject(hash, k, reason, at, sig)), sig))
    ensures var p, act := ag.tasks[id].propose, Decide(id, yes, reason, at, sig);
            var hash := ProposalHash(env.h, p);
            var a, r := Accept(hash, k, at, sig), Reject(hash, k, reason, at, sig);
            var (st, send) := if !yes then (Rejected(p, r), Some(RejectMsg(r)))
                              else if at <= p.validUntil then (Accepted(p, a), Some(AcceptMsg(a)))
                              else (Expired(p, at), None);
            NextAgent(env, k, ag, act) == ag.(log := ag.log[hash := st], tasks := ag.tasks - {id}) && Sends(env, k, ag, act) == send
  {
    hide ProposeBytes, AcceptBytes, RejectBytes;
  }

  /** An execution on an accepted proposal of one's own enters the log with the contract's output and is sent. */
  lemma ExecutionTakesEffect(env: Env, k: PublicKey, ag: Agent, id: nat, evidence: Bytes, at: u64, sig: Signature, out: Bytes)
    requires id in ag.tasks && ag.tasks[id].Executing?
    requires var t := ag.tasks[id];
             && t.propose.from == k && t.accept.proposalHash in ag.log && ag.log[t.accept.proposalHash] == Accepted(t.propose, t.accept)
             && t.propose.programHash in ag.contracts && env.contract(t.propose.programHash, evidence) == Some(out)
             && env.ver(k, ExecuteBytes(Execute(t.accept.proposalHash, evidence, out, k, at, sig)), sig)
    ensures var t, act := ag.tasks[id], SendExecute(id, evidence, at, sig);
            var e := Execute(t.accept.proposalHash, evidence, out, k, at, sig);
            && NextAgent(env, k, ag, act) == ag.(log := ag.log[e.proposalHash := Executed(t.propose, t.accept, e)], tasks := ag.tasks - {id})
            && Sends(env, k, ag, act) == Some(ExecuteMsg(e))
  {
    hide ExecuteBytes;
  }

  /** A registered contract is held from then on, and nothing else changes. */
  lemma RegisteringTakesEffect(env: Env, k: PublicKey, ag: Agent, contract: Bytes64)
    ensures NextAgent(env, k, ag, Install(contract)) == ag.(contracts := ag.contracts + {contract})
    ensures Sends(env, k, ag, Install(contract)) == None
  {
  }

  /** An accept may come before the proposal becomes valid: only its end is looked at. */
  lemma EarlyAcceptCounts(env: Env, log: Log, p: Propose, a: Accept)
    requires var k := ProposalHash(env.h, p);
             k in log && log[k] == Proposed(p) && a.proposalHash == k && a.party == p.to && env.ver(a.party, AcceptBytes(a), a.sig)
    requires a.acceptedAt < p.validFrom && a.acceptedAt <= p.validUntil
    ensures Step(env.h, env.ver, log, ApplyAccept(a)) == (log[a.proposalHash := Accepted(p, a)], Ok(()))
  {
  }

  // ----- what reputation counts -----

  /** Step `j` is agent `y` finishing the check of an execute, with an output of its own to compare. */
  ghost predicate JudgedAt(env: Env, trace: seq<World>, acts: Acts, j: nat, y: PublicKey, hash: Hash) {
    && j < |acts| && j < |trace| && y in trace[j].agents && acts[j].0 == y && acts[j].1.Credit?
    && var ag, id := trace[j].agents[y], acts[j].1.id;
       && id in ag.tasks && ag.tasks[id].Crediting? && ag.tasks[id].execute.proposalHash == hash
       && ag.tasks[id].propose.programHash in ag.contracts
       && env.contract(ag.tasks[id].propose.programHash, ag.tasks[id].execute.evidence).Some?
  }

  /** A verdict is counted exactly when it was reached, true claims and false ones alike. */
  lemma {:induction false} CreditedExactly(env: Env, trace: seq<World>, acts: Acts, n: nat, y: PublicKey, hash: Hash)
    requires Behaviour(env, trace, acts) && n < |trace| && y in trace[n].agents
    ensures hash in trace[n].agents[y].credited <==> exists j: nat :: j < n && JudgedAt(env, trace, acts, j, y, hash)
  {
    hide LogOp, Step;
    if n > 0 {
      var w, move := trace[n - 1], acts[n - 1];
      assert Enabled(env, w, move.0, move.1) && trace[n] == Next(env, w, move.0, move.1);
      CreditedExactly(env, trace, acts, n - 1, y, hash);
      if hash in trace[n].agents[y].credited && hash !in w.agents[y].credited {
        assert JudgedAt(env, trace, acts, n - 1, y, hash);
      }
    }
  }

  // ----- disputes -----

  /** A resolved dispute was signed, over a signed proposal and a signed execute with its own hash; every other one is refused for what it lacks. */
  lemma DisputeNeedsSignatures(env: Env, p: Propose, e: Execute, d: Dispute)
    ensures var r := ResolveDispute(env, p, e, d);
            var signed := env.ver(p.from, ProposeBytes(p), p.sig) && env.ver(e.party, ExecuteBytes(e), e.sig)
                          && env.ver(d.disputer, DisputeBytes(d), d.sig);
            && (r.Resolved? <==> signed && d.proposalHash == e.proposalHash && env.contract(p.programHash, d.evidence).Some?)
            && (r.BadSignature? <==> !signed) && (r.HashMismatch? <==> signed && d.proposalHash != e.proposalHash)
  {
  }

  /**
   An agent of the system that is slashed did send that execute, and its claim is what the
   contract gives on its own evidence: so the dispute brought other evidence or another
   proposal, or proposals collide, or the evidence has 2^32 bytes or more.
   */
  lemma SlashBringsOther(env: Env, trace: seq<World>, acts: Acts, n: nat, p: Propose, e: Execute, d: Dispute, x: PublicKey, out: Bytes)
    requires Behaviour(env, trace, acts) && n < |trace| && x in trace[n].agents && Genuine(env, trace[n], ExecuteMsg(e))
    requires ResolveDispute(env, p, e, d) == Resolved(SlashExecutor(x, out))
    ensures Released(trace[n], x, ExecuteBytes(e)) && e.proposalHash in trace[n].agents[x].log
    ensures var st := trace[n].agents[x].log[e.proposalHash];
            && st.Executed? && Truthful(env, st)
            && (|| d.evidence != e.evidence || ProposalHash(env.h, p) != e.proposalHash
                || Collision(env.h, ProposeBytes(p), ProposeBytes(st.propose))
                || |e.evidence| >= MAX_LEN || |st.execute.evidence| >= MAX_LEN)
  {
    hide ExecuteBytes, ProposeBytes, DisputeBytes, Behaviour;
    AlwaysInv(env, trace, acts, n);
    ReleasedExecute(env, trace[n], x, e);
    var st := trace[n].agents[x].log[e.proposalHash];
    assert GoodAgent(env, x, trace[n].agents[x]);
    assert GoodEntry(env.h, env.ver, e.proposalHash, st);
    if ProposalHash(env.h, p) == e.proposalHash {
      SameHashSameProposal(env.h, p, st.propose);
    }
    if |e.evidence| < MAX_LEN && |st.execute.evidence| < MAX_LEN {
      ExecuteInjective(e, st.execute);
    }
  }

  /** The proposal handed to a dispute is not compared with the execute: any other signed one, with another contract, slashes on the executor's own evidence. */
  lemma OtherProposalSlashes(env: Env, deal: Deal, cs: set<Bytes64>, p: Propose, d: Dispute, out: Bytes) returns (trace: seq<World>)
    requires Proper(env, deal) && deal.p.programHash in cs
    requires env.ver(p.from, ProposeBytes(p), p.sig) && env.ver(d.disputer, DisputeBytes(d), d.sig)
    requires d.proposalHash == deal.e.proposalHash && d.evidence == deal.e.evidence
    requires env.contract(p.programHash, d.evidence) == Some(out) && out != deal.e.expectedOutput
    ensures Behaviour(env, trace, Exchange(deal)) && |trace[7].sent| == 3 && trace[7].sent[2].msg == ExecuteMsg(deal.e)
    ensures ResolveDispute(env, p, deal.e, d) == Resolved(SlashExecutor(deal.e.party, out))
  {
    hide ProposeBytes, ExecuteBytes, DisputeBytes, AcceptBytes;
    trace := DealCompletes(env, deal, cs);
  }
}
