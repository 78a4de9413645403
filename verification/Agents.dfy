/**
 The handlers of an agent as methods on its state (agent_sdk/src/agent.rs): each call is
 one or two steps of the negotiation protocol, so what holds in every behaviour of the
 protocol holds of agents that run these handlers.

 `id` names the running call; `tasks` and `credited` are the bookkeeping of the protocol.
 */
module Agents {
  import opened Bytes
  import opened Hashing
  import opened Encodings
  import opened ProposalLog
  import opened AgentProtocol

  datatype SdkResult = Done | Agreed(agreed: bool) | Protocol(error: ProtocolError) | UnknownContract | ContractError

  /** A call performs `first`, then perhaps `second`, and hands `sent` to the channel. */
  ghost predicate Performs(env: Env, k: PublicKey, ag: Agent, first: Act, second: Option<Act>, ag': Agent, sent: Option<Message>) {
    && HasTask(ag, first)
    && var mid := NextAgent(env, k, ag, first);
       if second.None? then ag' == mid && sent == Sends(env, k, ag, first)
       else
         && HasTask(mid, second.value) && Sends(env, k, ag, first) == None
         && ag' == NextAgent(env, k, mid, second.value) && sent == Sends(env, k, mid, second.value)
  }

  function ResultOf(o: Outcome): SdkResult {
    if o.Ok? then Done else Protocol(o.error)
  }

  /** The verdict of a log on an operation. */
  function LogVerdict(env: Env, ag: Agent, op: Op): Outcome { Step(env.h, env.ver, ag.log, op).1 }

  /** What a contract call ends in, when it does not give an output. */
  function NoOutput(ag: Agent, program: Bytes64): SdkResult {
    if program !in ag.contracts then UnknownContract else ContractError
  }

  class AgentSdk {
    const env: Env
    const key: PublicKey
    const sign: Bytes -> Signature
    const proposals: ProposalBook
    var contracts: set<Bytes64>
    var revoked: set<PublicKey>
    var reputation: map<PublicKey, Counters>
    ghost var tasks: map<nat, Task>
    ghost var credited: set<Hash>

    ghost predicate Valid()
      reads this
    {
      proposals.h == env.h && proposals.ver == env.ver && forall b :: env.ver(key, b, sign(b))
    }

    ghost function View(): Agent
      reads this, proposals
    {
      Agent(proposals.byHash, tasks, contracts, reputation, credited)
    }

    constructor (env: Env, key: PublicKey, sign: Bytes -> Signature)
      requires forall b :: env.ver(key, b, sign(b))
      ensures Valid() && fresh(proposals) && this.env == env && this.key == key
      ensures View() == Agent(map[], map[], {}, map[], {})
    {
      this.env, this.key, this.sign := env, key, sign;
      proposals := new ProposalBook(env.h, env.ver);
      contracts, revoked, reputation, tasks, credited := {}, {}, map[], map[], {};
    }

    method RegisterContract(program: Bytes64)
      requires Valid()
      modifies this`contracts
      ensures Valid() && Performs(env, key, old(View()), Install(program), None, View(), None)
    {
      contracts := contracts + {program};
    }

    method Revoke(who: PublicKey)
      requires Valid()
      modifies this`revoked
      ensures Valid() && View() == old(View()) && revoked == old(revoked) + {who}
    {
      revoked := revoked + {who};
    }

    /** Sign a proposal and record it; the caller sends it. */
    method MakeProposal(programHash: Bytes64, parameters: Bytes, to: PublicKey, validFrom: u64, validUntil: u64, nonce: u64)
      returns (p: Propose)
      requires Valid()
      modifies proposals
      ensures p.(sig := Zeros(64)) == Propose(programHash, parameters, key, to, validFrom, validUntil, nonce, Zeros(64))
      ensures env.ver(key, ProposeBytes(p), p.sig)
      ensures Performs(env, key, old(View()), SendPropose(p), None, View(), Some(ProposeMsg(p)))
    {
      p := Propose(programHash, parameters, key, to, validFrom, validUntil, nonce, Zeros(64));
      p := p.(sig := sign(ProposeBytes(p)));
      var _, _ := proposals.Record(p);
    }

    method HandlePropose(p: Propose, now: u64, yes: bool, reason: Bytes, ghost id: nat)
      returns (r: SdkResult, sent: Option<Message>, ghost first: Act, ghost second: Option<Act>)
      requires Valid() && id !in tasks
      modifies proposals, this`tasks
      ensures Valid() && Performs(env, key, old(View()), first, second, View(), sent)
      ensures first.RecvPropose? && first.p == p && first.revoked == (p.from in revoked) && first.at == now
      ensures second.Some? <==> env.ver(p.from, ProposeBytes(p), p.sig) && p.from !in revoked
      ensures second.Some? ==>
                second.value.Decide? && second.value.yes == yes && second.value.reason == reason && second.value.at == now
      ensures r == if !env.ver(p.from, ProposeBytes(p), p.sig) then Protocol(SignatureInvalid)
                   else if second.None? then Done
                   else var mid := NextAgent(env, key, old(View()), first);
                        ResultOf(LogVerdict(env, mid, LogOp(env, key, mid, second.value).value))
      ensures tasks == old(tasks)
    {
      sent, second := None, None;
      var reject := Reject(ProposalHash(env.h, p), key, REVOKED, now, Zeros(64));
      reject := reject.(sig := sign(RejectBytes(reject)));
      first := RecvPropose(p, p.from in revoked, now, reject.sig, id);
      if !env.ver(p.from, ProposeBytes(p), p.sig) {
        return Protocol(SignatureInvalid), sent, first, second;
      }
      if p.from in revoked {
        return Done, Some(RejectMsg(reject)), first, second;
      }
      var o, k := proposals.Record(p);
      ghost var before := tasks;
      tasks := tasks[id := Deciding(p)];
      if yes {
        var a := Accept(k, key, now, Zeros(64));
        a := a.(sig := sign(AcceptBytes(a)));
        second := Some(Decide(id, true, reason, now, a.sig));
        o := proposals.Accept(a);
        sent := if o.Ok? then Some(AcceptMsg(a)) else None;
      } else {
        var m := Reject(k, key, reason, now, Zeros(64));
        m := m.(sig := sign(RejectBytes(m)));
        second := Some(Decide(id, false, reason, now, m.sig));
        o := proposals.Reject(m);
        sent := if o.Ok? then Some(RejectMsg(m)) else None;
      }
      tasks := tasks - {id};
      assert tasks == before;
      r := if o.Ok? then Done else Protocol(o.error);
    }

    method HandleAccept(a: Accept, evidence: Bytes, now: u64, ghost id: nat)
      returns (r: SdkResult, sent: Option<Message>, ghost first: Act, ghost second: Option<Act>)
      requires Valid() && id !in tasks
      modifies proposals, this`tasks
      ensures Valid() && Performs(env, key, old(View()), first, second, View(), sent)
      ensures first == RecvAccept(a, id)
      ensures second.Some? ==> second.value.SendExecute? && second.value.evidence == evidence && second.value.at == now
      ensures r == if second.None? then ResultOf(LogVerdict(env, old(View()), ApplyAccept(a)))
                   else var mid := NextAgent(env, key, old(View()), first);
                        var op := LogOp(env, key, mid, second.value);
                        if op.None? then NoOutput(mid, mid.tasks[second.value.id].propose.programHash) else ResultOf(LogVerdict(env, mid, op.value))
      ensures tasks == old(tasks)
    {
      sent, first, second := None, RecvAccept(a, id), None;
      var o := proposals.Accept(a);
      if o.Err? {
        return Protocol(o.error), sent, first, second;
      }
      var p := proposals.byHash[a.proposalHash].propose;
      if p.from != key {
        return Done, sent, first, second;
      }
      ghost var before := tasks;
      tasks := tasks[id := Executing(a, p)];
      second := Some(SendExecute(id, evidence, now, Zeros(64)));
      var out := env.contract(p.programHash, evidence);
      if p.programHash !in contracts || out.None? {
        r := if p.programHash !in contracts then UnknownContract else ContractError;
      } else {
        var e := Execute(a.proposalHash, evidence, out.value, key, now, Zeros(64));
        e := e.(sig := sign(ExecuteBytes(e)));
        second := Some(SendExecute(id, evidence, now, e.sig));
        o := proposals.Execute(e);
        sent := if o.Ok? then Some(ExecuteMsg(e)) else None;
        r := if o.Ok? then Done else Protocol(o.error);
      }
      tasks := tasks - {id};
      assert tasks == before;
    }

    method HandleExecute(e: Execute, ghost id: nat)
      returns (r: SdkResult, ghost first: Act, ghost second: Option<Act>)
      requires Valid() && id !in tasks
      modifies proposals, this`tasks, this`reputation, this`credited
      ensures Valid() && Performs(env, key, old(View()), first, second, View(), None)
      ensures first == RecvExecute(e, id) && (second.Some? ==> second.value == Credit(id))
      ensures r == if second.None? then ResultOf(LogVerdict(env, old(View()), ApplyExecute(e)))
                   else var mid := NextAgent(env, key, old(View()), first);
                        var program := mid.tasks[id].propose.programHash;
                        var out := env.contract(program, e.evidence);
                        if program !in mid.contracts || out.None? then NoOutput(mid, program) else Agreed(out.value == e.expectedOutput)
      ensures second.None? ==> r.Protocol?
      ensures tasks == old(tasks)
    {
      first, second := RecvExecute(e, id), None;
      var o := proposals.Execute(e);
      if o.Err? {
        return Protocol(o.error), first, second;
      }
      var p := proposals.byHash[e.proposalHash].propose;
      ghost var before := tasks;
      tasks := tasks[id := Crediting(e, p)];
      second := Some(Credit(id));
      var out := env.contract(p.programHash, e.evidence);
      if p.programHash !in contracts || out.None? {
        r := if p.programHash !in contracts then UnknownContract else ContractError;
      } else {
        var agreed := out.value == e.expectedOutput;
        reputation := Bump(reputation, e.party, agreed);
        credited := credited + {e.proposalHash};
        r := Agreed(agreed);
      }
      tasks := tasks - {id};
      assert tasks == before;
    }
  }

  // ----- calls on many agents are a behaviour -----

  /** One call on the agent with key `agent`: its steps, the state it leaves, and what it sends. */
  datatype Call = Call(agent: PublicKey, first: Act, second: Option<Act>, after: Agent, sent: Option<Message>)

  /** The call can happen in the world: it performs its steps there, on a message that is genuine. */
  ghost predicate Fits(env: Env, w: World, c: Call) {
    && Enabled(env, w, c.agent, c.first)
    && Performs(env, c.agent, w.agents[c.agent], c.first, c.second, c.after, c.sent)
    && (c.second.Some? ==> c.second.value.Decide? || c.second.value.SendExecute? || c.second.value.Credit?)
  }

  function AfterCall(w: World, c: Call): World {
    World(w.agents[c.agent := c.after], if c.sent.Some? then w.sent + [Sent(c.agent, c.sent.value)] else w.sent)
  }

  /** Calls one after the other, on any of the agents, from new agents on. */
  ghost predicate Session(env: Env, worlds: seq<World>, calls: seq<Call>) {
    && |worlds| == |calls| + 1 && Initial(worlds[0])
    && forall i {:trigger calls[i]} :: 0 <= i < |calls| ==> Fits(env, worlds[i], calls[i]) && worlds[i + 1] == AfterCall(worlds[i], calls[i])
  }

  lemma CallExtends(env: Env, trace: seq<World>, acts: seq<(PublicKey, Act)>, c: Call) returns (trace': seq<World>, acts': seq<(PublicKey, Act)>)
    requires Behaviour(env, trace, acts) && Fits(env, trace[|acts|], c)
    ensures Behaviour(env, trace', acts') && trace'[|acts'|] == AfterCall(trace[|acts|], c)
  {
    hide NextAgent, Sends, LogOp;
    var w, k := trace[|acts|], c.agent;
    if c.second.None? {
      Extend(env, trace, acts, (k, c.first), c.after, c.sent, AfterCall(w, c));
      trace', acts' := trace + [AfterCall(w, c)], acts + [(k, c.first)];
    } else {
      var mid := NextAgent(env, k, w.agents[k], c.first);
      var w' := World(w.agents[k := mid], w.sent);
      Extend(env, trace, acts, (k, c.first), mid, None, w');
      assert w.agents[k := mid][k := c.after] == w.agents[k := c.after];
      Extend(env, trace + [w'], acts + [(k, c.first)], (k, c.second.value), c.after, c.sent, AfterCall(w, c));
      trace', acts' := trace + [w'] + [AfterCall(w, c)], acts + [(k, c.first)] + [(k, c.second.value)];
    }
  }

  /** Whatever agents reach by calls, they reach in a behaviour of the protocol. */
  lemma {:induction false} SessionIsBehaviour(env: Env, worlds: seq<World>, calls: seq<Call>, n: nat)
    returns (trace: seq<World>, acts: seq<(PublicKey, Act)>)
    requires Session(env, worlds, calls) && n <= |calls|
    ensures Behaviour(env, trace, acts) && trace[|acts|] == worlds[n]
  {
    hide Fits, AfterCall, Enabled, Next;
    if n == 0 {
      trace, acts := [worlds[0]], [];
    } else {
      trace, acts := SessionIsBehaviour(env, worlds, calls, n - 1);
      assert Fits(env, worlds[n - 1], calls[n - 1]) && worlds[n] == AfterCall(worlds[n - 1], calls[n - 1]);
      trace, acts := CallExtends(env, trace, acts, calls[n - 1]);
    }
  }

  /** So the invariants of the protocol, and with them agreement, hold after every call. */
  lemma SessionIsSafe(env: Env, worlds: seq<World>, calls: seq<Call>, n: nat)
    requires Session(env, worlds, calls) && n <= |calls|
    ensures Inv(env, worlds[n])
  {
    hide Session, Inv;
    var trace, acts := SessionIsBehaviour(env, worlds, calls, n);
    AlwaysInv(env, trace, acts, |acts|);
  }
}
