/**
 The negotiation between agents (agent_sdk/src/agent.rs, agent_protocol/src/dispute.rs) as a
 state machine.

 A step is one lock section of a handler: between two sections of the same handler the
 other handlers and the other agents may run, and what the handler still has to do is kept
 as a task.  Messages are handed to the channel when they are sent; the channel may lose,
 repeat, reorder, misdeliver and alter them, and messages signed by foreign keys may appear
 at any time.  The one restriction is unforgeability: a message that verifies under the key
 of an agent of the system carries bytes that this agent has sent.
 */
module AgentProtocol {
  import opened Bytes
  import opened Hashing
  import opened Encodings
  import opened ProposalLog

  /** Hash, signature check, and the deterministic contract runtime (`None` when the run fails). */
  datatype Env = Env(h: HashFn, ver: Verifier, contract: (Bytes64, Bytes) -> Option<Bytes>)

  datatype Counters = Counters(completed: u64, disputesLost: u64)

  /** What a handler has left to do after its first lock section. */
  datatype Task =
    | Deciding(propose: Propose)
    | Executing(accept: Accept, propose: Propose)
    | Crediting(execute: Execute, propose: Propose)

  /** `credited` records for which proposals the reputation step has been taken. */
  datatype Agent = Agent(log: Log, tasks: map<nat, Task>, contracts: set<Bytes64>,
                         reputation: map<PublicKey, Counters>, credited: set<Hash>)

  datatype Sent = Sent(from: PublicKey, msg: Message)
  datatype World = World(agents: map<PublicKey, Agent>, sent: seq<Sent>)

  datatype Act =
    | SendPropose(p: Propose)
    | RecvPropose(p: Propose, revoked: bool, at: u64, sig: Signature, id: nat)
    | Decide(id: nat, yes: bool, reason: Bytes, at: u64, sig: Signature)
    | RecvAccept(a: Accept, id: nat)
    | SendExecute(id: nat, evidence: Bytes, at: u64, sig: Signature)
    | RecvExecute(e: Execute, id: nat)
    | Credit(id: nat)
    | Housekeep(op: Op)
    | Abandon(id: nat)
    | Install(contract: Bytes64)

  // ----- one step of one agent -----

  function After(env: Env, log: Log, op: Option<Op>): Log {
    if op.None? then log else Step(env.h, env.ver, log, op.value).0
  }

  predicate Succeeds(env: Env, log: Log, op: Op) {
    Step(env.h, env.ver, log, op).1.Ok?
  }

  predicate HasTask(ag: Agent, act: Act) {
    match act
    case Decide(id, _, _, _, _) => id in ag.tasks && ag.tasks[id].Deciding?
    case SendExecute(id, _, _, _) => id in ag.tasks && ag.tasks[id].Executing?
    case Credit(id) => id in ag.tasks && ag.tasks[id].Crediting?
    case Abandon(id) => id in ag.tasks
    case RecvPropose(_, _, _, _, id) => id !in ag.tasks
    case RecvAccept(_, id) => id !in ag.tasks
    case RecvExecute(_, id) => id !in ag.tasks
    case _ => true
  }

  /** The log operation of a step. */
  function LogOp(env: Env, k: PublicKey, ag: Agent, act: Act): Option<Op>
    requires HasTask(ag, act)
  {
    match act
    case SendPropose(p) => Some(RecordPropose(p))
    case RecvPropose(p, revoked, _, _, _) => if revoked then None else Some(RecordPropose(p))
    case Decide(id, yes, reason, at, sig) =>
      var hash := ProposalHash(env.h, ag.tasks[id].propose);
      Some(if yes then ApplyAccept(Accept(hash, k, at, sig)) else ApplyReject(Reject(hash, k, reason, at, sig)))
    case RecvAccept(a, _) => Some(ApplyAccept(a))
    case SendExecute(id, evidence, at, sig) =>
      var t := ag.tasks[id];
      var out := env.contract(t.propose.programHash, evidence);
      if t.propose.programHash !in ag.contracts || out.None? then None
      else Some(ApplyExecute(Execute(t.accept.proposalHash, evidence, out.value, k, at, sig)))
    case RecvExecute(e, _) => Some(ApplyExecute(e))
    case Credit(_) => None
    case Housekeep(op) => Some(op)
    case Abandon(_) => None
    case Install(_) => None
  }

  /** The message a step sends. */
  function Sends(env: Env, k: PublicKey, ag: Agent, act: Act): Option<Message>
    requires HasTask(ag, act)
  {
    var op := LogOp(env, k, ag, act);
    match act
    case SendPropose(p) => Some(ProposeMsg(p))
    case RecvPropose(p, revoked, at, sig, _) =>
      if revoked && env.ver(p.from, ProposeBytes(p), p.sig)
      then Some(RejectMsg(Reject(ProposalHash(env.h, p), k, REVOKED, at, sig))) else None
    case Decide(_, yes, _, _, _) =>
      if !Succeeds(env, ag.log, op.value) then None
      else Some(if yes then AcceptMsg(op.value.a) else RejectMsg(op.value.r))
    case SendExecute(_, _, _, _) =>
      if op.Some? && Succeeds(env, ag.log, op.value) then Some(ExecuteMsg(op.value.e)) else None
    case _ => None
  }

  // "proposer revoked"
  const REVOKED: Bytes := [112, 114, 111, 112, 111, 115, 101, 114, 32, 114, 101, 118, 111, 107, 101, 100]

  function Saturating(n: u64): u64 {
    if n == 0xffff_ffff_ffff_ffff then n else n + 1
  }

  function Bump(rep: map<PublicKey, Counters>, who: PublicKey, agreed: bool): map<PublicKey, Counters> {
    var c := if who in rep then rep[who] else Counters(0, 0);
    rep[who := if agreed then c.(completed := Saturating(c.completed)) else c.(disputesLost := Saturating(c.disputesLost))]
  }

  /** The tasks after a step. */
  function TasksAfter(env: Env, k: PublicKey, ag: Agent, act: Act): map<nat, Task>
    requires HasTask(ag, act)
  {
    var op := LogOp(env, k, ag, act);
    match act
    case RecvPropose(p, revoked, _, _, id) =>
      if op.Some? && Succeeds(env, ag.log, op.value) then ag.tasks[id := Deciding(p)] else ag.tasks
    case RecvAccept(a, id) =>
      if Succeeds(env, ag.log, op.value) && ag.log[a.proposalHash].propose.from == k
      then ag.tasks[id := Executing(a, ag.log[a.proposalHash].propose)] else ag.tasks
    case RecvExecute(e, id) =>
      if Succeeds(env, ag.log, op.value)
      then ag.tasks[id := Crediting(e, ag.log[e.proposalHash].propose)] else ag.tasks
    case Decide(id, _, _, _, _) => ag.tasks - {id}
    case SendExecute(id, _, _, _) => ag.tasks - {id}
    case Credit(id) => ag.tasks - {id}
    case Abandon(id) => ag.tasks - {id}
    case _ => ag.tasks
  }

  function NextAgent(env: Env, k: PublicKey, ag: Agent, act: Act): Agent
    requires HasTask(ag, act)
  {
    var ag' := ag.(log := After(env, ag.log, LogOp(env, k, ag, act)), tasks := TasksAfter(env, k, ag, act));
    match act
    case Credit(id) =>
      var t := ag.tasks[id];
      var out := env.contract(t.propose.programHash, t.execute.evidence);
      if t.propose.programHash !in ag.contracts || out.None? then ag'
      else ag'.(reputation := Bump(ag.reputation, t.execute.party, out.value == t.execute.expectedOutput),
                credited := ag.credited + {t.execute.proposalHash})
    case Install(contract) => ag'.(contracts := ag.contracts + {contract})
    case _ => ag'
  }

  // ----- the system -----

  function Signer(m: Message): PublicKey {
    match m case ProposeMsg(p) => p.from case AcceptMsg(a) => a.party case RejectMsg(r) => r.party
            case CounterMsg(c) => c.party case ExecuteMsg(e) => e.party case DisputeMsg(d) => d.disputer
  }

  function SigOf(m: Message): Signature {
    match m case ProposeMsg(p) => p.sig case AcceptMsg(a) => a.sig case RejectMsg(r) => r.sig
            case CounterMsg(c) => c.sig case ExecuteMsg(e) => e.sig case DisputeMsg(d) => d.sig
  }

  ghost predicate Released(w: World, k: PublicKey, b: Bytes) {
    exists i :: 0 <= i < |w.sent| && w.sent[i].from == k && MessageBytes(w.sent[i].msg) == b
  }

  /** Unforgeability, for keys of the system's own agents. */
  ghost predicate Genuine(env: Env, w: World, m: Message) {
    Signer(m) in w.agents && env.ver(Signer(m), MessageBytes(m), SigOf(m)) ==> Released(w, Signer(m), MessageBytes(m))
  }

  ghost predicate Enabled(env: Env, w: World, k: PublicKey, act: Act) {
    && k in w.agents && HasTask(w.agents[k], act)
    && match act
       case SendPropose(p) => p.from == k
       case RecvPropose(p, _, _, _, _) => Genuine(env, w, ProposeMsg(p))
       case RecvAccept(a, _) => Genuine(env, w, AcceptMsg(a))
       case RecvExecute(e, _) => Genuine(env, w, ExecuteMsg(e))
       case Housekeep(op) => op.ApplyReject? || op.ApplyCounter? || op.ExpireDue?
       case _ => true
  }

  function Next(env: Env, w: World, k: PublicKey, act: Act): World
    requires k in w.agents && HasTask(w.agents[k], act)
  {
    var send := Sends(env, k, w.agents[k], act);
    World(w.agents[k := NextAgent(env, k, w.agents[k], act)],
          if send.Some? then w.sent + [Sent(k, send.value)] else w.sent)
  }

  ghost predicate Initial(w: World) {
    w.sent == [] && forall k :: k in w.agents ==>
      var ag := w.agents[k]; ag.log == map[] && ag.tasks == map[] && ag.reputation == map[] && ag.credited == {}
  }

  /** A behaviour: states and the steps between them. */
  ghost predicate Behaviour(env: Env, trace: seq<World>, acts: seq<(PublicKey, Act)>) {
    && |trace| == |acts| + 1 && Initial(trace[0])
    && forall i {:trigger acts[i]} :: 0 <= i < |acts| ==>
         Enabled(env, trace[i], acts[i].0, acts[i].1) && trace[i + 1] == Next(env, trace[i], acts[i].0, acts[i].1)
  }

  // ----- what accepts and executes a log holds -----

  predicate HasAccept(log: Log, k: Hash, a: Accept) {
    k in log && (log[k].Accepted? || log[k].Executed?) && log[k].accept == a
  }

  predicate HasExecute(log: Log, k: Hash, e: Execute) {
    k in log && log[k].Executed? && log[k].execute == e
  }

  /** A log gains an accept or an execute only by applying it successfully, and loses none. */
  lemma StepAccepts(env: Env, log: Log, op: Option<Op>)
    ensures forall k, a :: HasAccept(log, k, a) ==> HasAccept(After(env, log, op), k, a)
    ensures forall k, a :: HasAccept(After(env, log, op), k, a) ==>
              HasAccept(log, k, a) || (op == Some(ApplyAccept(a)) && Succeeds(env, log, op.value) && a.proposalHash == k)
    ensures forall a :: op == Some(ApplyAccept(a)) && Succeeds(env, log, op.value) ==>
              HasAccept(After(env, log, op), a.proposalHash, a)
    ensures forall k, e :: HasExecute(log, k, e) ==> HasExecute(After(env, log, op), k, e)
    ensures forall k, e :: HasExecute(After(env, log, op), k, e) ==>
              HasExecute(log, k, e) || (op == Some(ApplyExecute(e)) && Succeeds(env, log, op.value) && e.proposalHash == k)
    ensures forall e :: op == Some(ApplyExecute(e)) && Succeeds(env, log, op.value) ==>
              HasExecute(After(env, log, op), e.proposalHash, e) && log[e.proposalHash].Accepted?
  {
  }

  /** Entries and their proposals stay. */
  lemma StepKeeps(env: Env, log: Log, op: Option<Op>)
    ensures forall k :: k in log ==> k in After(env, log, op) && After(env, log, op)[k].propose == log[k].propose
  {
  }

  // ----- invariants of the system -----

  /** A sent accept is the one in its sender's log; a sent execute too, and it tells the truth. */
  ghost predicate SentInLog(env: Env, w: World, i: nat)
    requires i < |w.sent|
  {
    var s := w.sent[i];
    && s.from in w.agents
    && var log := w.agents[s.from].log;
       && (s.msg.AcceptMsg? ==> HasAccept(log, s.msg.accept.proposalHash, s.msg.accept))
       && (s.msg.ExecuteMsg? ==>
             && HasExecute(log, s.msg.execute.proposalHash, s.msg.execute)
             && env.contract(log[s.msg.execute.proposalHash].propose.programHash, s.msg.execute.evidence)
                == Some(s.msg.execute.expectedOutput))
  }

  ghost predicate SentOnce(w: World, i: nat, j: nat)
    requires i < |w.sent| && j < |w.sent|
  {
    var s, t := w.sent[i], w.sent[j];
    s.from == t.from && s.msg.ExecuteMsg? && t.msg.ExecuteMsg? ==> s.msg.execute.proposalHash != t.msg.execute.proposalHash
  }

  /** What a log holds from agents of the system, they have sent. */
  ghost predicate LogWasSent(w: World, k: PublicKey)
    requires k in w.agents
  {
    && (forall hash, a :: HasAccept(w.agents[k].log, hash, a) && a.party in w.agents ==> Released(w, a.party, AcceptBytes(a)))
    && (forall hash, e :: HasExecute(w.agents[k].log, hash, e) && e.party in w.agents ==> Released(w, e.party, ExecuteBytes(e)))
  }

  ghost predicate GoodTask(k: PublicKey, ag: Agent, t: Task) {
    match t
    case Deciding(_) => true
    case Executing(a, p) => a.proposalHash in ag.log && ag.log[a.proposalHash].propose == p && p.from == k
    case Crediting(e, p) =>
      HasExecute(ag.log, e.proposalHash, e) && ag.log[e.proposalHash].propose == p && e.proposalHash !in ag.credited
  }

  ghost predicate Apart(t: Task, u: Task) {
    t.Crediting? && u.Crediting? ==> t.execute.proposalHash != u.execute.proposalHash
  }

  ghost predicate GoodTasks(k: PublicKey, ag: Agent) {
    && (forall i :: i in ag.tasks ==> GoodTask(k, ag, ag.tasks[i]))
    && (forall i, j :: i in ag.tasks && j in ag.tasks && i != j ==> Apart(ag.tasks[i], ag.tasks[j]))
    && (forall c :: c in ag.credited ==> c in ag.log && ag.log[c].Executed?)
  }

  /** The claim of an executed proposal is what the contract gives on its evidence. */
  predicate Truthful(env: Env, st: ProposalState)
    requires st.Executed?
  {
    env.contract(st.propose.programHash, st.execute.evidence) == Some(st.execute.expectedOutput)
  }

  /** The credited proposals executed by `q` whose claim was true, or those whose claim was not. */
  ghost function Outcomes(env: Env, ag: Agent, q: PublicKey, agreed: bool): set<Hash> {
    set k | k in ag.credited && k in ag.log && ag.log[k].Executed? && ag.log[k].execute.party == q && Truthful(env, ag.log[k]) == agreed
  }

  function Capped(n: nat): u64 { if n > 0xffff_ffff_ffff_ffff then 0xffff_ffff_ffff_ffff else n }

  function CountersOf(ag: Agent, q: PublicKey): Counters {
    if q in ag.reputation then ag.reputation[q] else Counters(0, 0)
  }

  /** The counters are the numbers of true and of false claims, up to saturation. */
  ghost predicate GoodReputation(env: Env, ag: Agent) {
    forall q :: CountersOf(ag, q) == Counters(Capped(|Outcomes(env, ag, q, true)|), Capped(|Outcomes(env, ag, q, false)|))
  }

  ghost predicate GoodAgent(env: Env, k: PublicKey, ag: Agent) {
    GoodLog(env.h, env.ver, ag.log) && GoodTasks(k, ag) && GoodReputation(env, ag)
  }

  ghost predicate Inv(env: Env, w: World) {
    && (forall k :: k in w.agents ==> GoodAgent(env, k, w.agents[k]))
    && (forall k :: k in w.agents ==> LogWasSent(w, k))
    && (forall i: nat :: i < |w.sent| ==> SentInLog(env, w, i))
    && (forall i: nat, j: nat :: i < j < |w.sent| ==> SentOnce(w, i, j))
  }

  // ----- steps keep them -----

  /** The task a step starts is good, and about a proposal no other task is to credit. */
  lemma NewTaskIsGood(env: Env, k: PublicKey, ag: Agent, act: Act, i: nat)
    requires HasTask(ag, act) && GoodTasks(k, ag)
    requires i in NextAgent(env, k, ag, act).tasks && i !in ag.tasks
    ensures GoodTask(k, NextAgent(env, k, ag, act), NextAgent(env, k, ag, act).tasks[i])
    ensures forall j :: j in ag.tasks ==> Apart(NextAgent(env, k, ag, act).tasks[i], ag.tasks[j])
  {
    var op := LogOp(env, k, ag, act);
    StepAccepts(env, ag.log, op);
    StepKeeps(env, ag.log, op);
    assert forall j :: j in ag.tasks ==> GoodTask(k, ag, ag.tasks[j]);
  }

  lemma OldTaskStaysGood(env: Env, k: PublicKey, ag: Agent, act: Act, i: nat)
    requires HasTask(ag, act) && GoodTasks(k, ag)
    requires i in NextAgent(env, k, ag, act).tasks && i in ag.tasks
    ensures NextAgent(env, k, ag, act).tasks[i] == ag.tasks[i]
    ensures GoodTask(k, NextAgent(env, k, ag, act), ag.tasks[i])
  {
    var op := LogOp(env, k, ag, act);
    StepAccepts(env, ag.log, op);
    StepKeeps(env, ag.log, op);
    assert GoodTask(k, ag, ag.tasks[i]);
    if act.Credit? {
      assert Apart(ag.tasks[i], ag.tasks[act.id]);
    }
  }

  lemma CreditedStaysExecuted(env: Env, k: PublicKey, ag: Agent, act: Act, c: Hash)
    requires HasTask(ag, act) && GoodTasks(k, ag) && c in NextAgent(env, k, ag, act).credited
    ensures var log := NextAgent(env, k, ag, act).log; c in log && log[c].Executed?
  {
    StepAccepts(env, ag.log, LogOp(env, k, ag, act));
    if c in ag.credited {
      assert HasExecute(ag.log, c, ag.log[c].execute);
    } else {
      assert GoodTask(k, ag, ag.tasks[act.id]);
    }
  }

  lemma TasksStayGood(env: Env, k: PublicKey, ag: Agent, act: Act)
    requires HasTask(ag, act) && GoodTasks(k, ag)
    ensures GoodTasks(k, NextAgent(env, k, ag, act))
  {
    var ag' := NextAgent(env, k, ag, act);
    forall i | i in ag'.tasks
      ensures GoodTask(k, ag', ag'.tasks[i])
      ensures i in ag.tasks ==> ag'.tasks[i] == ag.tasks[i]
      ensures i !in ag.tasks ==> forall j :: j in ag.tasks ==> Apart(ag'.tasks[i], ag.tasks[j])
    {
      if i in ag.tasks {
        OldTaskStaysGood(env, k, ag, act, i);
      } else {
        NewTaskIsGood(env, k, ag, act, i);
      }
    }
    forall i, j | i in ag'.tasks && j in ag'.tasks && i != j
      ensures Apart(ag'.tasks[i], ag'.tasks[j])
    {
      assert i in ag.tasks && j in ag.tasks ==> Apart(ag.tasks[i], ag.tasks[j]);
      assert i in ag.tasks || j in ag.tasks;
    }
    forall c | c in ag'.credited
      ensures c in ag'.log && ag'.log[c].Executed?
    {
      CreditedStaysExecuted(env, k, ag, act, c);
    }
  }

  lemma ReputationStaysGood(env: Env, k: PublicKey, ag: Agent, act: Act)
    requires HasTask(ag, act) && GoodTasks(k, ag) && GoodReputation(env, ag)
    ensures GoodReputation(env, NextAgent(env, k, ag, act))
  {
    var ag' := NextAgent(env, k, ag, act);
    forall q
      ensures CountersOf(ag', q) == Counters(Capped(|Outcomes(env, ag', q, true)|), Capped(|Outcomes(env, ag', q, false)|))
    {
      if ag'.credited == ag.credited {
        OutcomesStay(env, k, ag, act, q);
      } else {
        CreditCounts(env, k, ag, act, q);
      }
    }
  }

  /** A step that credits nothing leaves counters and outcomes as they are. */
  lemma OutcomesStay(env: Env, k: PublicKey, ag: Agent, act: Act, q: PublicKey)
    requires HasTask(ag, act) && GoodTasks(k, ag) && NextAgent(env, k, ag, act).credited == ag.credited
    ensures var ag' := NextAgent(env, k, ag, act);
            CountersOf(ag', q) == CountersOf(ag, q) && forall b :: Outcomes(env, ag', q, b) == Outcomes(env, ag, q, b)
  {
    var ag' := NextAgent(env, k, ag, act);
    StepAccepts(env, ag.log, LogOp(env, k, ag, act));
    StepKeeps(env, ag.log, LogOp(env, k, ag, act));
    forall c | c in ag.credited
      ensures c in ag.log && ag.log[c].Executed? && c in ag'.log && ag'.log[c].Executed?
      ensures ag'.log[c].execute == ag.log[c].execute && ag'.log[c].propose == ag.log[c].propose
    {
      assert HasExecute(ag.log, c, ag.log[c].execute);
    }
    if act.Credit? {
      assert GoodTask(k, ag, ag.tasks[act.id]);
    }
  }

  /** What a step that credits does: one new hash, of an executed proposal of the log, and a counter of its executor. */
  lemma CreditStep(env: Env, k: PublicKey, ag: Agent, act: Act)
    requires HasTask(ag, act) && GoodTasks(k, ag) && NextAgent(env, k, ag, act).credited != ag.credited
    ensures act.Credit?
    ensures var ag', e := NextAgent(env, k, ag, act), ag.tasks[act.id].execute;
            && HasExecute(ag.log, e.proposalHash, e) && e.proposalHash !in ag.credited
            && ag'.log == ag.log && ag'.credited == ag.credited + {e.proposalHash}
            && ag'.reputation == Bump(ag.reputation, e.party, Truthful(env, ag.log[e.proposalHash]))
  {
    hide Step;
    assert act.Credit? ==> GoodTask(k, ag, ag.tasks[act.id]);
  }

  lemma OutcomesGrow(env: Env, ag: Agent, ag': Agent, hash: Hash, q: PublicKey, b: bool)
    requires hash in ag.log && ag.log[hash].Executed? && hash !in ag.credited
    requires ag'.log == ag.log && ag'.credited == ag.credited + {hash}
    ensures |Outcomes(env, ag', q, b)|
         == |Outcomes(env, ag, q, b)| + if ag.log[hash].execute.party == q && Truthful(env, ag.log[hash]) == b then 1 else 0
  {
    hide Truthful;
    if ag.log[hash].execute.party == q && Truthful(env, ag.log[hash]) == b {
      assert Outcomes(env, ag', q, b) == Outcomes(env, ag, q, b) + {hash};
    } else {
      assert Outcomes(env, ag', q, b) == Outcomes(env, ag, q, b);
    }
  }

  /** So the counters follow the outcomes. */
  lemma CreditCounts(env: Env, k: PublicKey, ag: Agent, act: Act, q: PublicKey)
    requires HasTask(ag, act) && GoodTasks(k, ag) && NextAgent(env, k, ag, act).credited != ag.credited
    requires CountersOf(ag, q) == Counters(Capped(|Outcomes(env, ag, q, true)|), Capped(|Outcomes(env, ag, q, false)|))
    ensures var ag' := NextAgent(env, k, ag, act);
            CountersOf(ag', q) == Counters(Capped(|Outcomes(env, ag', q, true)|), Capped(|Outcomes(env, ag', q, false)|))
  {
    hide NextAgent, Outcomes, Truthful, GoodTasks;
    CreditStep(env, k, ag, act);
    var ag', hash := NextAgent(env, k, ag, act), ag.tasks[act.id].execute.proposalHash;
    OutcomesGrow(env, ag, ag', hash, q, true);
    OutcomesGrow(env, ag, ag', hash, q, false);
  }

  lemma CardinalityGrows(s: set<Hash>, t: set<Hash>)
    requires s <= t
    ensures |s| <= |t|
  {
    assert t == s + (t - s);
  }

  lemma AgentStaysGood(env: Env, k: PublicKey, ag: Agent, act: Act)
    requires HasTask(ag, act) && GoodAgent(env, k, ag)
    ensures GoodAgent(env, k, NextAgent(env, k, ag, act))
  {
    var op := LogOp(env, k, ag, act);
    if op.Some? {
      StepIsSafe(env.h, env.ver, ag.log, op.value);
    }
    TasksStayGood(env, k, ag, act);
    ReputationStaysGood(env, k, ag, act);
  }

  /** What is sent is what was just applied. */
  lemma SendsWhatWasApplied(env: Env, k: PublicKey, ag: Agent, act: Act)
    requires HasTask(ag, act)
    ensures var op, send := LogOp(env, k, ag, act), Sends(env, k, ag, act);
            && (send.Some? && send.value.AcceptMsg? ==>
                  op == Some(ApplyAccept(send.value.accept)) && Succeeds(env, ag.log, op.value) && send.value.accept.party == k)
            && (send.Some? && send.value.ExecuteMsg? ==>
                  && op == Some(ApplyExecute(send.value.execute)) && Succeeds(env, ag.log, op.value)
                  && send.value.execute.party == k && act.SendExecute?
                  && env.contract(ag.tasks[act.id].propose.programHash, send.value.execute.evidence) == Some(send.value.execute.expectedOutput)
                  && send.value.execute.proposalHash == ag.tasks[act.id].accept.proposalHash)
  {
  }

  lemma ReleasedStays(w: World, w': World, k: PublicKey, b: Bytes)
    requires w.sent <= w'.sent && Released(w, k, b)
    ensures Released(w', k, b)
  {
    var i :| 0 <= i < |w.sent| && w.sent[i].from == k && MessageBytes(w.sent[i].msg) == b;
    assert w'.sent[i] == w.sent[i];
  }

  /** An accept or execute new in a log was sent, now or before. */
  lemma AppliedWasReleased(env: Env, w: World, k: PublicKey, act: Act, m: Message)
    requires Enabled(env, w, k, act)
    requires var op := LogOp(env, k, w.agents[k], act);
             && op.Some? && Succeeds(env, w.agents[k].log, op.value) && Signer(m) in w.agents
             && ((m.AcceptMsg? && op.value == ApplyAccept(m.accept)) || (m.ExecuteMsg? && op.value == ApplyExecute(m.execute)))
    ensures Released(Next(env, w, k, act), Signer(m), MessageBytes(m))
  {
    var w' := Next(env, w, k, act);
    if act.Decide? || act.SendExecute? {
      assert w'.sent[|w.sent|] == Sent(k, m);
    } else {
      ReleasedStays(w, w', Signer(m), MessageBytes(m));
    }
  }

  lemma LogStaysSent(env: Env, w: World, k: PublicKey, act: Act, k': PublicKey)
    requires Enabled(env, w, k, act) && k' in w.agents && LogWasSent(w, k')
    ensures LogWasSent(Next(env, w, k, act), k')
  {
    var w', ag := Next(env, w, k, act), w.agents[k];
    StepAccepts(env, ag.log, LogOp(env, k, ag, act));
    forall hash, a | HasAccept(w'.agents[k'].log, hash, a) && a.party in w'.agents
      ensures Released(w', a.party, AcceptBytes(a))
    {
      if HasAccept(w.agents[k'].log, hash, a) {
        ReleasedStays(w, w', a.party, AcceptBytes(a));
      } else {
        AppliedWasReleased(env, w, k, act, AcceptMsg(a));
      }
    }
    forall hash, e | HasExecute(w'.agents[k'].log, hash, e) && e.party in w'.agents
      ensures Released(w', e.party, ExecuteBytes(e))
    {
      if HasExecute(w.agents[k'].log, hash, e) {
        ReleasedStays(w, w', e.party, ExecuteBytes(e));
      } else {
        AppliedWasReleased(env, w, k, act, ExecuteMsg(e));
      }
    }
  }

  lemma SentStaysInLog(env: Env, w: World, k: PublicKey, act: Act, i: nat)
    requires Enabled(env, w, k, act) && GoodTasks(k, w.agents[k]) && i < |Next(env, w, k, act).sent|
    requires i < |w.sent| ==> SentInLog(env, w, i)
    ensures SentInLog(env, Next(env, w, k, act), i)
  {
    var w', ag := Next(env, w, k, act), w.agents[k];
    StepAccepts(env, ag.log, LogOp(env, k, ag, act));
    StepKeeps(env, ag.log, LogOp(env, k, ag, act));
    if i == |w.sent| {
      SendsWhatWasApplied(env, k, ag, act);
      if act.SendExecute? {
        assert GoodTask(k, ag, ag.tasks[act.id]);
      }
    }
  }

  lemma SentStaysOnce(env: Env, w: World, k: PublicKey, act: Act, i: nat, j: nat)
    requires Enabled(env, w, k, act) && i < j < |Next(env, w, k, act).sent|
    requires SentInLog(env, w, i) && (j < |w.sent| ==> SentOnce(w, i, j))
    ensures SentOnce(Next(env, w, k, act), i, j)
  {
    var w', ag := Next(env, w, k, act), w.agents[k];
    assert w'.sent[i] == w.sent[i];
    if j == |w.sent| {
      StepAccepts(env, ag.log, LogOp(env, k, ag, act));
      SendsWhatWasApplied(env, k, ag, act);
    }
  }

  lemma StepKeepsInv(env: Env, w: World, k: PublicKey, act: Act)
    requires Inv(env, w) && Enabled(env, w, k, act)
    ensures Inv(env, Next(env, w, k, act))
  {
    var w' := Next(env, w, k, act);
    AgentStaysGood(env, k, w.agents[k], act);
    forall k' | k' in w'.agents
      ensures LogWasSent(w', k')
    {
      LogStaysSent(env, w, k, act, k');
    }
    forall i: nat | i < |w'.sent|
      ensures SentInLog(env, w', i)
    {
      SentStaysInLog(env, w, k, act, i);
    }
    forall i: nat, j: nat | i < j < |w'.sent|
      ensures SentOnce(w', i, j)
    {
      SentStaysOnce(env, w, k, act, i, j);
    }
  }

  /** The invariants hold in every state of every behaviour. */
  lemma {:induction false} AlwaysInv(env: Env, trace: seq<World>, acts: seq<(PublicKey, Act)>, n: nat)
    requires Behaviour(env, trace, acts) && n < |trace|
    ensures Inv(env, trace[n])
  {
    if n == 0 {
      assert forall k, q, b :: k in trace[0].agents ==> Outcomes(env, trace[0].agents[k], q, b) == {};
    } else {
      AlwaysInv(env, trace, acts, n - 1);
      var (k, act) := acts[n - 1];
      StepKeepsInv(env, trace[n - 1], k, act);
    }
  }

  // ----- agreement -----

  /** The same proposal, whoever's signature it carries, or two strings that collide. */
  ghost predicate SameProposal(h: HashFn, p: Propose, q: Propose) {
    p.(sig := q.sig) == q || Collision(h, ProposeBytes(p), ProposeBytes(q))
  }

  lemma SameHashSameProposal(h: HashFn, p: Propose, q: Propose)
    requires ProposalHash(h, p) == ProposalHash(h, q)
    ensures SameProposal(h, p, q)
  {
    if ProposeBytes(p) == ProposeBytes(q) {
      ProposeInjective(p, q);
    }
  }

  /** An accept whose bytes an agent released is the accept in that agent's log. */
  lemma ReleasedAccept(env: Env, w: World, y: PublicKey, a: Accept)
    requires Inv(env, w) && y in w.agents && Released(w, y, AcceptBytes(a))
    ensures a.proposalHash in w.agents[y].log
    ensures var st := w.agents[y].log[a.proposalHash];
            (st.Accepted? || st.Executed?) && a.(sig := st.accept.sig) == st.accept
  {
    var i :| 0 <= i < |w.sent| && w.sent[i].from == y && MessageBytes(w.sent[i].msg) == AcceptBytes(a);
    assert SentInLog(env, w, i);
    TagOf(w.sent[i].msg);
    TagOf(AcceptMsg(a));
    AcceptInjective(a, w.sent[i].msg.accept);
  }

  /**
   If an agent's log has a proposal accepted or executed and the addressee is an agent of the
   system, then the addressee's log has it accepted or executed too, with the same proposal
   and the same accept.
   */
  lemma AcceptAgreement(env: Env, trace: seq<World>, acts: seq<(PublicKey, Act)>, n: nat, x: PublicKey, hash: Hash)
    requires Behaviour(env, trace, acts) && n < |trace| && x in trace[n].agents && hash in trace[n].agents[x].log
    requires var st := trace[n].agents[x].log[hash];
             (st.Accepted? || st.Executed?) && st.propose.to in trace[n].agents
    ensures var st := trace[n].agents[x].log[hash];
            var log := trace[n].agents[st.propose.to].log;
            && hash in log && (log[hash].Accepted? || log[hash].Executed?)
            && st.accept.(sig := log[hash].accept.sig) == log[hash].accept
            && SameProposal(env.h, st.propose, log[hash].propose)
  {
    AlwaysInv(env, trace, acts, n);
    var w := trace[n];
    var st := w.agents[x].log[hash];
    var y := st.propose.to;
    assert GoodAgent(env, x, w.agents[x]) && GoodAgent(env, y, w.agents[y]);
    assert GoodEntry(env.h, env.ver, hash, st);
    assert LogWasSent(w, x);
    assert HasAccept(w.agents[x].log, hash, st.accept);
    ReleasedAccept(env, w, y, st.accept);
    assert GoodEntry(env.h, env.ver, hash, w.agents[y].log[hash]);
    SameHashSameProposal(env.h, st.propose, w.agents[y].log[hash].propose);
  }

  lemma ExecuteNames(e: Execute, e': Execute)
    requires ExecuteBytes(e) == ExecuteBytes(e')
    ensures e.proposalHash == e'.proposalHash
  {
    var r := PushBytes(e.evidence) + (PushBytes(e.expectedOutput) + (e.party + ToBE(e.executedAt, 8)));
    var r' := PushBytes(e'.evidence) + (PushBytes(e'.expectedOutput) + (e'.party + ToBE(e'.executedAt, 8)));
    ConcatSplit(EXECUTE_TAG, e.proposalHash + r, EXECUTE_TAG, e'.proposalHash + r');
    ConcatSplit(e.proposalHash, r, e'.proposalHash, r');
  }

  lemma ReleasedExecute(env: Env, w: World, x: PublicKey, e: Execute)
    requires Inv(env, w) && x in w.agents && Released(w, x, ExecuteBytes(e))
    ensures e.proposalHash in w.agents[x].log
    ensures var st := w.agents[x].log[e.proposalHash];
            && st.Executed? && ExecuteBytes(st.execute) == ExecuteBytes(e)
            && env.contract(st.propose.programHash, st.execute.evidence) == Some(st.execute.expectedOutput)
  {
    var i :| 0 <= i < |w.sent| && w.sent[i].from == x && MessageBytes(w.sent[i].msg) == ExecuteBytes(e);
    assert SentInLog(env, w, i);
    TagOf(w.sent[i].msg);
    TagOf(ExecuteMsg(e));
    ExecuteNames(e, w.sent[i].msg.execute);
  }

  /**
   If an agent's log has a proposal executed and the proposer is an agent of the system, then
   the proposer's log has it executed too, with the same proposal and the same execute.
   */
  lemma ExecuteAgreement(env: Env, trace: seq<World>, acts: seq<(PublicKey, Act)>, n: nat, y: PublicKey, hash: Hash)
    requires Behaviour(env, trace, acts) && n < |trace| && y in trace[n].agents && hash in trace[n].agents[y].log
    requires var st := trace[n].agents[y].log[hash]; st.Executed? && st.propose.from in trace[n].agents
    ensures var st := trace[n].agents[y].log[hash];
            var log := trace[n].agents[st.propose.from].log;
            && hash in log && log[hash].Executed? && ExecuteBytes(log[hash].execute) == ExecuteBytes(st.execute)
            && (|st.execute.evidence| < MAX_LEN && |log[hash].execute.evidence| < MAX_LEN ==>
                  st.execute.(sig := log[hash].execute.sig) == log[hash].execute)
            && SameProposal(env.h, st.propose, log[hash].propose)
  {
    AlwaysInv(env, trace, acts, n);
    var w := trace[n];
    var st := w.agents[y].log[hash];
    var x := st.propose.from;
    assert GoodAgent(env, x, w.agents[x]) && GoodAgent(env, y, w.agents[y]);
    assert GoodEntry(env.h, env.ver, hash, st);
    assert LogWasSent(w, y);
    assert HasExecute(w.agents[y].log, hash, st.execute);
    ReleasedExecute(env, w, x, st.execute);
    var st' := w.agents[x].log[hash];
    assert GoodEntry(env.h, env.ver, hash, st');
    SameHashSameProposal(env.h, st.propose, st'.propose);
    if |st.execute.evidence| < MAX_LEN && |st'.execute.evidence| < MAX_LEN {
      ExecuteInjective(st.execute, st'.execute);
    }
  }

  /** An agent sends at most one execute for each proposal. */
  lemma AtMostOneExecute(env: Env, trace: seq<World>, acts: seq<(PublicKey, Act)>, n: nat, i: nat, j: nat)
    requires Behaviour(env, trace, acts) && n < |trace| && i < j < |trace[n].sent|
    requires trace[n].sent[i].msg.ExecuteMsg? && trace[n].sent[j].msg.ExecuteMsg?
    requires trace[n].sent[i].from == trace[n].sent[j].from
    ensures trace[n].sent[i].msg.execute.proposalHash != trace[n].sent[j].msg.execute.proposalHash
  {
    AlwaysInv(env, trace, acts, n);
    assert SentOnce(trace[n], i, j);
  }

  ghost function ExecutedFrom(log: Log, q: PublicKey): set<Hash> {
    set k | k in log && log[k].Executed? && log[k].propose.from == q
  }

  /**
   An agent's counters for a proposer are the numbers of that proposer's executed and credited
   proposals whose claimed output the contract confirms, and does not confirm.
   */
  lemma ReputationIsExact(env: Env, trace: seq<World>, acts: seq<(PublicKey, Act)>, n: nat, y: PublicKey, q: PublicKey)
    requires Behaviour(env, trace, acts) && n < |trace| && y in trace[n].agents
    ensures var ag := trace[n].agents[y];
            && CountersOf(ag, q) == Counters(Capped(|Outcomes(env, ag, q, true)|), Capped(|Outcomes(env, ag, q, false)|))
            && forall b :: Outcomes(env, ag, q, b) <= ExecutedFrom(ag.log, q)
  {
    AlwaysInv(env, trace, acts, n);
    var ag := trace[n].agents[y];
    assert GoodAgent(env, y, ag);
    forall b, k | k in Outcomes(env, ag, q, b)
      ensures k in ExecutedFrom(ag.log, q)
    {
      assert GoodEntry(env.h, env.ver, k, ag.log[k]);
    }
  }

  /** An agent counts for a proposer no more outcomes than it has executed proposals of that proposer. */
  lemma ReputationIsEarned(env: Env, trace: seq<World>, acts: seq<(PublicKey, Act)>, n: nat, y: PublicKey, q: PublicKey)
    requires Behaviour(env, trace, acts) && n < |trace| && y in trace[n].agents && q in trace[n].agents[y].reputation
    ensures var ag := trace[n].agents[y];
            ag.reputation[q].completed + ag.reputation[q].disputesLost <= |ExecutedFrom(ag.log, q)|
  {
    ReputationIsExact(env, trace, acts, n, y, q);
    var ag := trace[n].agents[y];
    var s, t := Outcomes(env, ag, q, true), Outcomes(env, ag, q, false);
    assert s !! t && |s + t| == |s| + |t|;
    CardinalityGrows(s + t, ExecutedFrom(ag.log, q));
  }

  // ----- disputes -----

  datatype Verdict = SlashExecutor(executor: PublicKey, output: Bytes) | DismissDispute(disputer: PublicKey, output: Bytes)
  datatype Resolution = Resolved(verdict: Verdict) | BadSignature | HashMismatch | ContractFailed

  function ResolveDispute(env: Env, p: Propose, e: Execute, d: Dispute): Resolution {
    if !env.ver(p.from, ProposeBytes(p), p.sig) || !env.ver(e.party, ExecuteBytes(e), e.sig)
       || !env.ver(d.disputer, DisputeBytes(d), d.sig) then BadSignature
    else if d.proposalHash != e.proposalHash then HashMismatch
    else match env.contract(p.programHash, d.evidence)
      case None => ContractFailed
      case Some(actual) =>
        if e.expectedOutput == actual then Resolved(DismissDispute(d.disputer, actual)) else Resolved(SlashExecutor(e.party, actual))
  }

  /**
   Whatever the claim, a dispute over an execute that an agent of the system sent, carrying
   that execute's own evidence, never slashes the agent.
   */
  lemma HonestExecuteIsSafe(env: Env, trace: seq<World>, acts: seq<(PublicKey, Act)>, n: nat, i: nat, p: Propose, d: Dispute)
    requires Behaviour(env, trace, acts) && n < |trace| && i < |trace[n].sent| && trace[n].sent[i].msg.ExecuteMsg?
    requires var e := trace[n].sent[i].msg.execute;
             && ProposalHash(env.h, p) == e.proposalHash && d.evidence == e.evidence && d.proposalHash == e.proposalHash
             && env.ver(p.from, ProposeBytes(p), p.sig) && env.ver(d.disputer, DisputeBytes(d), d.sig)
    ensures var e, x := trace[n].sent[i].msg.execute, trace[n].sent[i].from;
            && x in trace[n].agents && e.proposalHash in trace[n].agents[x].log
            && var logged := trace[n].agents[x].log[e.proposalHash].propose;
               || ResolveDispute(env, p, e, d) == Resolved(DismissDispute(d.disputer, e.expectedOutput))
               || Collision(env.h, ProposeBytes(p), ProposeBytes(logged))
  {
    AlwaysInv(env, trace, acts, n);
    var w := trace[n];
    assert SentInLog(env, w, i);
    var e, x := w.sent[i].msg.execute, w.sent[i].from;
    var st := w.agents[x].log[e.proposalHash];
    assert GoodAgent(env, x, w.agents[x]);
    assert GoodEntry(env.h, env.ver, e.proposalHash, st);
    SameHashSameProposal(env.h, p, st.propose);
  }

  /** What becomes of a valid dispute, whatever its evidence: it slashes exactly when the contract's output on it is another one. */
  lemma DisputeExactly(env: Env, trace: seq<World>, acts: seq<(PublicKey, Act)>, n: nat, i: nat, p: Propose, d: Dispute)
    requires Behaviour(env, trace, acts) && n < |trace| && i < |trace[n].sent| && trace[n].sent[i].msg.ExecuteMsg?
    requires d.proposalHash == trace[n].sent[i].msg.execute.proposalHash
    requires env.ver(p.from, ProposeBytes(p), p.sig) && env.ver(d.disputer, DisputeBytes(d), d.sig)
    ensures var e := trace[n].sent[i].msg.execute;
            var actual := env.contract(p.programHash, d.evidence);
            ResolveDispute(env, p, e, d)
              == if actual.None? then ContractFailed
                 else if actual.value == e.expectedOutput then Resolved(DismissDispute(d.disputer, actual.value))
                 else Resolved(SlashExecutor(e.party, actual.value))
  {
    hide ExecuteBytes, ProposeBytes, DisputeBytes, Behaviour;
    AlwaysInv(env, trace, acts, n);
    var w := trace[n];
    assert SentInLog(env, w, i);
    var e, x := w.sent[i].msg.execute, w.sent[i].from;
    assert GoodAgent(env, x, w.agents[x]);
    assert GoodEntry(env.h, env.ver, e.proposalHash, w.agents[x].log[e.proposalHash]);
  }

  // ----- an undisturbed exchange completes -----

  /** A proposal with the answers to it, all properly signed, for a contract that both sides hold. */
  datatype Deal = Deal(p: Propose, a: Accept, e: Execute)

  ghost predicate Proper(env: Env, d: Deal) {
    && d.p.from != d.p.to && d.a.party == d.p.to && d.e.party == d.p.from
    && d.a.proposalHash == d.e.proposalHash == ProposalHash(env.h, d.p) && d.a.acceptedAt <= d.p.validUntil
    && env.ver(d.p.from, ProposeBytes(d.p), d.p.sig) && env.ver(d.a.party, AcceptBytes(d.a), d.a.sig)
    && env.ver(d.e.party, ExecuteBytes(d.e), d.e.sig)
    && env.contract(d.p.programHash, d.e.evidence) == Some(d.e.expectedOutput)
  }

  function Idle(contracts: set<Bytes64>, log: Log): Agent {
    Agent(log, map[], contracts, map[], {})
  }

  // The steps of the exchange.
  function Propose1(d: Deal): (PublicKey, Act) { (d.p.from, SendPropose(d.p)) }
  function Receive2(d: Deal): (PublicKey, Act) { (d.p.to, RecvPropose(d.p, false, 0, d.p.sig, 0)) }
  function Decide3(d: Deal): (PublicKey, Act) { (d.p.to, Decide(0, true, [], d.a.acceptedAt, d.a.sig)) }
  function Accept4(d: Deal): (PublicKey, Act) { (d.p.from, RecvAccept(d.a, 0)) }
  function Execute5(d: Deal): (PublicKey, Act) { (d.p.from, SendExecute(0, d.e.evidence, d.e.executedAt, d.e.sig)) }
  function Receive6(d: Deal): (PublicKey, Act) { (d.p.to, RecvExecute(d.e, 0)) }
  function Credit7(d: Deal): (PublicKey, Act) { (d.p.to, Credit(0)) }

  function Opening(d: Deal): seq<(PublicKey, Act)> { [] + [Propose1(d)] + [Receive2(d)] + [Decide3(d)] }
  function Middle(d: Deal): seq<(PublicKey, Act)> { Opening(d) + [Accept4(d)] + [Execute5(d)] }
  function Exchange(d: Deal): seq<(PublicKey, Act)> { Middle(d) + [Receive6(d)] + [Credit7(d)] }

  /** The proposer's side, step by step. */
  lemma ProposerSide(env: Env, d: Deal, cs: set<Bytes64>)
    requires Proper(env, d) && d.p.programHash in cs
    ensures var hash, x, x0 := d.a.proposalHash, d.p.from, Idle(cs, map[]);
            var x1, x2 := Idle(cs, map[hash := Proposed(d.p)]), Idle(cs, map[hash := Accepted(d.p, d.a)]).(tasks := map[0 := Executing(d.a, d.p)]);
            && NextAgent(env, x, x0, SendPropose(d.p)) == x1
            && NextAgent(env, x, x1, RecvAccept(d.a, 0)) == x2 && Sends(env, x, x1, RecvAccept(d.a, 0)) == None
            && NextAgent(env, x, x2, Execute5(d).1) == Idle(cs, map[hash := Executed(d.p, d.a, d.e)])
            && Sends(env, x, x2, Execute5(d).1) == Some(ExecuteMsg(d.e))
  {
    assert map[0 := Executing(d.a, d.p)] - {0} == map[];
  }

  /** The addressee's side, step by step. */
  lemma AddresseeSide(env: Env, d: Deal, cs: set<Bytes64>)
    requires Proper(env, d) && d.p.programHash in cs
    ensures var hash, y, y0 := d.a.proposalHash, d.p.to, Idle(cs, map[]);
            var y1 := Idle(cs, map[hash := Proposed(d.p)]).(tasks := map[0 := Deciding(d.p)]);
            var y2 := Idle(cs, map[hash := Accepted(d.p, d.a)]);
            var y3 := Idle(cs, map[hash := Executed(d.p, d.a, d.e)]).(tasks := map[0 := Crediting(d.e, d.p)]);
            && NextAgent(env, y, y0, Receive2(d).1) == y1 && Sends(env, y, y0, Receive2(d).1) == None
            && NextAgent(env, y, y1, Decide3(d).1) == y2 && Sends(env, y, y1, Decide3(d).1) == Some(AcceptMsg(d.a))
            && NextAgent(env, y, y2, RecvExecute(d.e, 0)) == y3 && Sends(env, y, y2, RecvExecute(d.e, 0)) == None
            && NextAgent(env, y, y3, Credit(0)).log == y3.log
            && NextAgent(env, y, y3, Credit(0)).reputation == map[d.p.from := Counters(1, 0)]
  {
    assert map[0 := Deciding(d.p)] - {0} == map[];
  }

  lemma Extend(env: Env, trace: seq<World>, acts: seq<(PublicKey, Act)>, move: (PublicKey, Act), ag': Agent, m: Option<Message>, w': World)
    requires Behaviour(env, trace, acts)
    requires var w, k, act := trace[|acts|], move.0, move.1;
             && Enabled(env, w, k, act) && NextAgent(env, k, w.agents[k], act) == ag' && Sends(env, k, w.agents[k], act) == m
             && w'.agents == w.agents[k := ag'] && w'.sent == if m.Some? then w.sent + [Sent(k, m.value)] else w.sent
    ensures Behaviour(env, trace + [w'], acts + [move])
  {
    var trace', acts' := trace + [w'], acts + [move];
    forall i | 0 <= i < |acts'|
      ensures Enabled(env, trace'[i], acts'[i].0, acts'[i].1) && trace'[i + 1] == Next(env, trace'[i], acts'[i].0, acts'[i].1)
    {
      if i < |acts| {
        assert acts'[i] == acts[i] && trace'[i + 1] == trace[i + 1];
      }
    }
  }

  function Both(d: Deal, x: Agent, y: Agent, sent: seq<Sent>): World {
    World(map[d.p.from := x, d.p.to := y], sent)
  }

  lemma DealReceived(env: Env, d: Deal, cs: set<Bytes64>) returns (trace: seq<World>)
    requires Proper(env, d) && d.p.programHash in cs
    ensures Behaviour(env, trace, [] + [Propose1(d)] + [Receive2(d)])
    ensures var x1 := Idle(cs, map[d.a.proposalHash := Proposed(d.p)]);
            trace[2] == Both(d, x1, x1.(tasks := map[0 := Deciding(d.p)]), [Sent(d.p.from, ProposeMsg(d.p))])
  {
    hide NextAgent, Step, ProposeBytes, AcceptBytes, ExecuteBytes;
    ProposerSide(env, d, cs);
    AddresseeSide(env, d, cs);
    var i, x1 := Idle(cs, map[]), Idle(cs, map[d.a.proposalHash := Proposed(d.p)]);
    var y1, s1 := x1.(tasks := map[0 := Deciding(d.p)]), Sent(d.p.from, ProposeMsg(d.p));
    var w0, w1, w2 := Both(d, i, i, []), Both(d, x1, i, [s1]), Both(d, x1, y1, [s1]);
    assert Released(w1, d.p.from, ProposeBytes(d.p)) by { assert w1.sent[0] == s1; }
    Extend(env, [w0], [], Propose1(d), x1, Some(ProposeMsg(d.p)), w1);
    Extend(env, [w0] + [w1], [] + [Propose1(d)], Receive2(d), y1, None, w2);
    trace := [w0] + [w1] + [w2];
  }

  lemma DealAccepted(env: Env, d: Deal, cs: set<Bytes64>) returns (trace: seq<World>)
    requires Proper(env, d) && d.p.programHash in cs
    ensures Behaviour(env, trace, Opening(d))
    ensures trace[3] == Both(d, Idle(cs, map[d.a.proposalHash := Proposed(d.p)]), Idle(cs, map[d.a.proposalHash := Accepted(d.p, d.a)]),
                             [Sent(d.p.from, ProposeMsg(d.p)), Sent(d.p.to, AcceptMsg(d.a))])
  {
    hide NextAgent, Step, ProposeBytes, AcceptBytes, ExecuteBytes;
    AddresseeSide(env, d, cs);
    trace := DealReceived(env, d, cs);
    var y2 := Idle(cs, map[d.a.proposalHash := Accepted(d.p, d.a)]);
    var w3 := Both(d, trace[2].agents[d.p.from], y2, [trace[2].sent[0], Sent(d.p.to, AcceptMsg(d.a))]);
    Extend(env, trace, [] + [Propose1(d)] + [Receive2(d)], Decide3(d), y2, Some(AcceptMsg(d.a)), w3);
    trace := trace + [w3];
  }

  lemma DealExecuted(env: Env, d: Deal, cs: set<Bytes64>) returns (trace: seq<World>)
    requires Proper(env, d) && d.p.programHash in cs
    ensures Behaviour(env, trace, Middle(d))
    ensures trace[5] == Both(d, Idle(cs, map[d.a.proposalHash := Executed(d.p, d.a, d.e)]), Idle(cs, map[d.a.proposalHash := Accepted(d.p, d.a)]),
                             [Sent(d.p.from, ProposeMsg(d.p)), Sent(d.p.to, AcceptMsg(d.a)), Sent(d.p.from, ExecuteMsg(d.e))])
  {
    hide NextAgent, Step, ProposeBytes, AcceptBytes, ExecuteBytes;
    ProposerSide(env, d, cs);
    var x, y, hash := d.p.from, d.p.to, d.a.proposalHash;
    var y2, x3 := Idle(cs, map[hash := Accepted(d.p, d.a)]), Idle(cs, map[hash := Executed(d.p, d.a, d.e)]);
    var x2 := y2.(tasks := map[0 := Executing(d.a, d.p)]);
    var s1, s2, s3 := Sent(x, ProposeMsg(d.p)), Sent(y, AcceptMsg(d.a)), Sent(x, ExecuteMsg(d.e));
    var w4, w5 := Both(d, x2, y2, [s1, s2]), Both(d, x3, y2, [s1, s2, s3]);
    trace := DealAccepted(env, d, cs);
    assert Released(trace[3], y, AcceptBytes(d.a)) by { assert trace[3].sent[1] == s2; }
    Extend(env, trace, Opening(d), Accept4(d), x2, None, w4);
    Extend(env, trace + [w4], Opening(d) + [Accept4(d)], Execute5(d), x3, Some(ExecuteMsg(d.e)), w5);
    trace := trace + [w4] + [w5];
  }

  /** Every proper deal has a behaviour that ends with both logs executed and the proposer credited. */
  lemma DealCompletes(env: Env, d: Deal, cs: set<Bytes64>) returns (trace: seq<World>)
    requires Proper(env, d) && d.p.programHash in cs
    ensures Behaviour(env, trace, Exchange(d))
    ensures var w := trace[7];
            && d.p.from in w.agents && d.p.to in w.agents
            && w.agents[d.p.from].log == w.agents[d.p.to].log == map[d.a.proposalHash := Executed(d.p, d.a, d.e)]
            && w.agents[d.p.to].reputation == map[d.p.from := Counters(1, 0)]
            && |w.sent| == 3 && w.sent[2] == Sent(d.p.from, ExecuteMsg(d.e))
  {
    hide NextAgent, Step, ProposeBytes, AcceptBytes, ExecuteBytes;
    AddresseeSide(env, d, cs);
    var x, y := d.p.from, d.p.to;
    var x3 := Idle(cs, map[d.a.proposalHash := Executed(d.p, d.a, d.e)]);
    var y3 := x3.(tasks := map[0 := Crediting(d.e, d.p)]);
    var y4 := NextAgent(env, y, y3, Credit(0));
    trace := DealExecuted(env, d, cs);
    var sent := trace[5].sent;
    assert Released(trace[5], x, ExecuteBytes(d.e)) by { assert sent[2] == Sent(x, ExecuteMsg(d.e)); }
    var w6, w7 := Both(d, x3, y3, sent), Both(d, x3, y4, sent);
    Extend(env, trace, Middle(d), Receive6(d), y3, None, w6);
    Extend(env, trace + [w6], Middle(d) + [Receive6(d)], Credit7(d), y4, None, w7);
    trace := trace + [w6] + [w7];
  }

  /** Evidence of one's own choice slashes an executor that did nothing wrong. */
  lemma OtherEvidenceSlashes(env: Env, deal: Deal, cs: set<Bytes64>, d: Dispute, out: Bytes) returns (trace: seq<World>)
    requires Proper(env, deal) && deal.p.programHash in cs
    requires d.proposalHash == deal.e.proposalHash && env.ver(d.disputer, DisputeBytes(d), d.sig)
    requires env.contract(deal.p.programHash, d.evidence) == Some(out) && out != deal.e.expectedOutput
    ensures Behaviour(env, trace, Exchange(deal)) && |trace[7].sent| == 3 && trace[7].sent[2].msg == ExecuteMsg(deal.e)
    ensures ResolveDispute(env, deal.p, deal.e, d) == Resolved(SlashExecutor(deal.e.party, out))
  {
    trace := DealCompletes(env, deal, cs);
  }
}
