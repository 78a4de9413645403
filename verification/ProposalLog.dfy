/**
 The per-agent proposal log (agent_protocol/src/state_machine.rs).

 `Step` is the transition function on logs.  The class removes and reinserts entries as the
 program does, and is proved to follow it.  Signature checking is a parameter.
 */
module ProposalLog {
  import opened Bytes
  import opened Hashing
  import opened Encodings

  datatype ProposalState =
    | Proposed(propose: Propose)
    | Accepted(propose: Propose, accept: Accept)
    | Rejected(propose: Propose, reject: Reject)
    | CounterProposed(propose: Propose, counter: CounterPropose)
    | Executed(propose: Propose, accept: Accept, execute: Execute)
    | Expired(propose: Propose, expiredAt: u64)

  type Log = map<Hash, ProposalState>

  datatype Event = AcceptEvent | RejectEvent | CounterEvent | ExecuteEvent

  datatype ProtocolError =
    | SignatureInvalid
    | UnknownProposal(hash: Hash)
    | IllegalTransition(from: ProposalState, event: Event)
    | Late(now: u64)

  type Outcome = Result<(), ProtocolError>

  function ProposalHash(h: HashFn, p: Propose): Hash {
    h(ProposeBytes(p))
  }

  // ----- the operations on logs as values -----

  datatype Op =
    | RecordPropose(p: Propose)
    | ApplyAccept(a: Accept)
    | ApplyReject(r: Reject)
    | ApplyCounter(c: CounterPropose)
    | ApplyExecute(e: Execute)
    | ExpireDue(now: u64)

  predicate Authentic(ver: Verifier, op: Op) {
    match op
    case RecordPropose(p) => ver(p.from, ProposeBytes(p), p.sig)
    case ApplyAccept(a) => ver(a.party, AcceptBytes(a), a.sig)
    case ApplyReject(r) => ver(r.party, RejectBytes(r), r.sig)
    case ApplyCounter(c) => ver(c.party, CounterBytes(c), c.sig)
    case ApplyExecute(e) => ver(e.party, ExecuteBytes(e), e.sig)
    case ExpireDue(_) => true
  }

  /** The entry a message is about. */
  function Target(op: Op): Hash
    requires op.ApplyAccept? || op.ApplyReject? || op.ApplyCounter? || op.ApplyExecute?
  {
    match op
    case ApplyAccept(a) => a.proposalHash
    case ApplyReject(r) => r.proposalHash
    case ApplyCounter(c) => c.originalHash
    case ApplyExecute(e) => e.proposalHash
  }

  /** What a message makes of the entry it is about, and the verdict. */
  function React(st: ProposalState, op: Op): (ProposalState, Outcome)
    requires op.ApplyAccept? || op.ApplyReject? || op.ApplyCounter? || op.ApplyExecute?
  {
    match op
    case ApplyAccept(a) =>
      if !st.Proposed? then (st, Err(IllegalTransition(st, AcceptEvent)))
      else if a.party != st.propose.to then (st, Err(SignatureInvalid))
      else if a.acceptedAt > st.propose.validUntil then (Expired(st.propose, a.acceptedAt), Err(Late(a.acceptedAt)))
      else (Accepted(st.propose, a), Ok(()))
    case ApplyReject(r) =>
      if !st.Proposed? then (st, Err(IllegalTransition(st, RejectEvent)))
      else if r.party != st.propose.to then (st, Err(SignatureInvalid))
      else (Rejected(st.propose, r), Ok(()))
    case ApplyCounter(c) =>
      if !st.Proposed? then (st, Err(IllegalTransition(st, CounterEvent)))
      else if c.party != st.propose.to then (st, Err(SignatureInvalid))
      else (CounterProposed(st.propose, c), Ok(()))
    case ApplyExecute(e) =>
      if !st.Accepted? then (st, Err(IllegalTransition(st, ExecuteEvent)))
      else if e.party != st.propose.from then (st, Err(SignatureInvalid))
      else (Executed(st.propose, st.accept, e), Ok(()))
  }

  predicate Overdue(st: ProposalState, now: u64) {
    st.Proposed? && now > st.propose.validUntil
  }

  function Step(h: HashFn, ver: Verifier, log: Log, op: Op): (Log, Outcome) {
    if !Authentic(ver, op) then (log, Err(SignatureInvalid))
    else match op
      case RecordPropose(p) =>
        var k := ProposalHash(h, p);
        (if k in log then log else log[k := Proposed(p)], Ok(()))
      case ExpireDue(now) =>
        (map k | k in log :: if Overdue(log[k], now) then Expired(log[k].propose, now) else log[k], Ok(()))
      case _ =>
        var k := Target(op);
        if k !in log then (log, Err(UnknownProposal(k)))
        else (log[k := React(log[k], op).0], React(log[k], op).1)
  }

  function Run(h: HashFn, ver: Verifier, log: Log, ops: seq<Op>): Log {
    if ops == [] then log else Step(h, ver, Run(h, ver, log, ops[..|ops| - 1]), ops[|ops| - 1]).0
  }

  // ----- what every reachable log satisfies -----

  /** An accept that was in time, by the addressee, for the entry under `k`. */
  predicate GoodAccept(ver: Verifier, k: Hash, p: Propose, a: Accept) {
    && a.proposalHash == k && a.party == p.to && a.acceptedAt <= p.validUntil
    && ver(a.party, AcceptBytes(a), a.sig)
  }

  predicate GoodExecute(ver: Verifier, k: Hash, p: Propose, e: Execute) {
    e.proposalHash == k && e.party == p.from && ver(e.party, ExecuteBytes(e), e.sig)
  }

  predicate GoodEntry(h: HashFn, ver: Verifier, k: Hash, st: ProposalState) {
    && k == ProposalHash(h, st.propose)
    && ver(st.propose.from, ProposeBytes(st.propose), st.propose.sig)
    && match st
       case Proposed(_) => true
       case Accepted(p, a) => GoodAccept(ver, k, p, a)
       case Rejected(p, r) => r.proposalHash == k && r.party == p.to && ver(r.party, RejectBytes(r), r.sig)
       case CounterProposed(p, c) => c.originalHash == k && c.party == p.to && ver(c.party, CounterBytes(c), c.sig)
       case Executed(p, a, e) => GoodAccept(ver, k, p, a) && GoodExecute(ver, k, p, e)
       case Expired(p, at) => at > p.validUntil
  }

  ghost predicate GoodLog(h: HashFn, ver: Verifier, log: Log) {
    forall k :: k in log ==> GoodEntry(h, ver, k, log[k])
  }

  /** How one entry may change: never its proposal, never out of a final state. */
  predicate EntryEvolves(st: ProposalState, st': ProposalState) {
    && st.propose == st'.propose
    && (st.Proposed? || st' == st || (st.Accepted? && st'.Executed? && st.accept == st'.accept))
  }

  ghost predicate Evolves(log: Log, log': Log) {
    forall k :: k in log ==> k in log' && EntryEvolves(log[k], log'[k])
  }

  lemma ReactIsSafe(h: HashFn, ver: Verifier, st: ProposalState, op: Op)
    requires op.ApplyAccept? || op.ApplyReject? || op.ApplyCounter? || op.ApplyExecute?
    requires Authentic(ver, op) && GoodEntry(h, ver, Target(op), st)
    ensures GoodEntry(h, ver, Target(op), React(st, op).0) && EntryEvolves(st, React(st, op).0)
  {
  }

  lemma WriteIsSafe(h: HashFn, ver: Verifier, log: Log, k: Hash, st: ProposalState)
    requires GoodLog(h, ver, log) && GoodEntry(h, ver, k, st) && (k in log ==> EntryEvolves(log[k], st))
    ensures GoodLog(h, ver, log[k := st]) && Evolves(log, log[k := st])
  {
  }

  lemma StepIsSafe(h: HashFn, ver: Verifier, log: Log, op: Op)
    requires GoodLog(h, ver, log)
    ensures GoodLog(h, ver, Step(h, ver, log, op).0)
    ensures Evolves(log, Step(h, ver, log, op).0)
  {
    if Authentic(ver, op) && (op.ApplyAccept? || op.ApplyReject? || op.ApplyCounter? || op.ApplyExecute?) {
      if Target(op) in log {
        ReactIsSafe(h, ver, log[Target(op)], op);
        WriteIsSafe(h, ver, log, Target(op), React(log[Target(op)], op).0);
      }
    }
  }

  /** A failed call changes nothing, except that an accept past the deadline expires its entry. */
  lemma FailureIsHarmless(h: HashFn, ver: Verifier, log: Log, op: Op)
    requires Step(h, ver, log, op).1.Err?
    ensures var log' := Step(h, ver, log, op).0;
            if op.ApplyAccept? && Authentic(ver, op) && op.a.proposalHash in log && log[op.a.proposalHash].Proposed?
               && op.a.party == log[op.a.proposalHash].propose.to && op.a.acceptedAt > log[op.a.proposalHash].propose.validUntil
            then log' == log[op.a.proposalHash := Expired(log[op.a.proposalHash].propose, op.a.acceptedAt)]
            else log' == log
  {
    if Authentic(ver, op) && (op.ApplyAccept? || op.ApplyReject? || op.ApplyCounter? || op.ApplyExecute?) && Target(op) in log {
      var k := Target(op);
      assert log[k := log[k]] == log;
    }
  }

  lemma EvolvesTransitive(a: Log, b: Log, c: Log)
    requires Evolves(a, b) && Evolves(b, c)
    ensures Evolves(a, c)
  {
    forall k | k in a
      ensures k in c && EntryEvolves(a[k], c[k])
    {
      assert EntryEvolves(a[k], b[k]) && EntryEvolves(b[k], c[k]);
    }
  }

  /** Every run from the empty log: entries are good at every point, and only evolve. */
  lemma {:induction false} RunIsSafe(h: HashFn, ver: Verifier, ops: seq<Op>, i: nat)
    requires i <= |ops|
    ensures GoodLog(h, ver, Run(h, ver, map[], ops))
    ensures Evolves(Run(h, ver, map[], ops[..i]), Run(h, ver, map[], ops))
    decreases |ops|
  {
    if ops == [] {
      assert ops[..i] == ops;
    } else {
      var init, last := ops[..|ops| - 1], ops[|ops| - 1];
      RunIsSafe(h, ver, init, if i < |ops| then i else i - 1);
      StepIsSafe(h, ver, Run(h, ver, map[], init), last);
      if i < |ops| {
        assert init[..i] == ops[..i];
        EvolvesTransitive(Run(h, ver, map[], ops[..i]), Run(h, ver, map[], init), Run(h, ver, map[], ops));
      } else {
        assert ops[..i] == ops;
      }
    }
  }

  // ----- first come, first served -----

  /** The message, or the sweep, ends the wait for an answer to proposal `p`, filed under `k`. */
  predicate Answers(ver: Verifier, k: Hash, p: Propose, op: Op) {
    match op
    case ApplyAccept(a) => ver(p.to, AcceptBytes(a), a.sig) && a.party == p.to && a.proposalHash == k
    case ApplyReject(r) => ver(p.to, RejectBytes(r), r.sig) && r.party == p.to && r.proposalHash == k
    case ApplyCounter(c) => ver(p.to, CounterBytes(c), c.sig) && c.party == p.to && c.originalHash == k
    case ExpireDue(now) => now > p.validUntil
    case _ => false
  }

  predicate Fulfils(ver: Verifier, k: Hash, p: Propose, op: Op) {
    op.ApplyExecute? && ver(p.from, ExecuteBytes(op.e), op.e.sig) && op.e.party == p.from && op.e.proposalHash == k
  }

  predicate Opens(h: HashFn, ver: Verifier, k: Hash, op: Op) {
    op.RecordPropose? && ver(op.p.from, ProposeBytes(op.p), op.p.sig) && ProposalHash(h, op.p) == k
  }

  /** What an answer makes of the proposal. */
  function Settled(p: Propose, op: Op): ProposalState
    requires !op.RecordPropose? && !op.ApplyExecute?
  {
    match op
    case ApplyAccept(a) => if a.acceptedAt <= p.validUntil then Accepted(p, a) else Expired(p, a.acceptedAt)
    case ApplyReject(r) => Rejected(p, r)
    case ApplyCounter(c) => CounterProposed(p, c)
    case ExpireDue(now) => Expired(p, now)
  }

  /** The least index from `lo` on at which `good` holds, or the length. */
  function First(ops: seq<Op>, good: Op -> bool, lo: nat): (i: nat)
    ensures i <= |ops| && (forall j :: lo <= j < i ==> !good(ops[j])) && (i < |ops| ==> lo <= i && good(ops[i]))
  {
    if |ops| <= lo then |ops|
    else
      var n := |ops| - 1;
      var i := First(ops[..n], good, lo);
      if i < n then i else if good(ops[n]) then n else n + 1
  }

  /** The state of a proposal that is waiting when `ops` begin: the first answer decides, and after an accept the first execute. */
  function Fate(ver: Verifier, k: Hash, p: Propose, ops: seq<Op>): ProposalState {
    var i := First(ops, op => Answers(ver, k, p, op), 0);
    if i == |ops| then Proposed(p)
    else
      var st := Settled(p, ops[i]);
      var j := First(ops, op => Fulfils(ver, k, p, op), i + 1);
      if st.Accepted? && j < |ops| then Executed(p, st.accept, ops[j].e) else st
  }

  /** How one more operation changes a fate. */
  function Turn(ver: Verifier, k: Hash, st: ProposalState, op: Op): ProposalState {
    if st.Proposed? && Answers(ver, k, st.propose, op) then Settled(st.propose, op)
    else if st.Accepted? && Fulfils(ver, k, st.propose, op) then Executed(st.propose, st.accept, op.e)
    else st
  }

  lemma FirstSnoc(ops: seq<Op>, op: Op, good: Op -> bool, lo: nat)
    ensures First(ops + [op], good, lo)
         == if |ops| < lo then |ops| + 1
            else if First(ops, good, lo) < |ops| then First(ops, good, lo) else if good(op) then |ops| else |ops| + 1
  {
    assert (ops + [op])[..|ops|] == ops;
  }

  lemma FateSnoc(ver: Verifier, k: Hash, p: Propose, ops: seq<Op>, op: Op)
    ensures Fate(ver, k, p, ops + [op]) == Turn(ver, k, Fate(ver, k, p, ops), op)
    ensures Fate(ver, k, p, ops).propose == p
  {
    hide First, AcceptBytes, RejectBytes, CounterBytes, ExecuteBytes;
    var answers, fulfils := (op: Op) => Answers(ver, k, p, op), (op: Op) => Fulfils(ver, k, p, op);
    var i := First(ops, answers, 0);
    FirstSnoc(ops, op, answers, 0);
    FirstSnoc(ops, op, fulfils, i + 1);
    FirstSnoc(ops, op, fulfils, |ops| + 1);
  }

  lemma StepTurns(h: HashFn, ver: Verifier, log: Log, op: Op, k: Hash)
    requires k in log
    ensures k in Step(h, ver, log, op).0 && Step(h, ver, log, op).0[k] == Turn(ver, k, log[k], op)
  {
  }

  lemma StepOpens(h: HashFn, ver: Verifier, log: Log, op: Op, k: Hash)
    requires k !in log
    ensures k in Step(h, ver, log, op).0 <==> Opens(h, ver, k, op)
    ensures Opens(h, ver, k, op) ==> Step(h, ver, log, op).0[k] == Proposed(op.p)
  {
  }

  /**
   Every log is decided by who came first: it holds an entry exactly when a verified proposal
   of that hash came, and the entry is the fate of the first of these among what came after.
   */
  lemma {:induction false} LogIsFirstCome(h: HashFn, ver: Verifier, ops: seq<Op>, k: Hash)
    ensures var i := First(ops, op => Opens(h, ver, k, op), 0);
            && (k in Run(h, ver, map[], ops) <==> i < |ops|)
            && (i < |ops| ==> Run(h, ver, map[], ops)[k] == Fate(ver, k, ops[i].p, ops[i + 1..]))
  {
    if ops != [] {
      hide Step, Fate, Turn;
      var n := |ops| - 1;
      var init, last := ops[..n], ops[n];
      assert ops == init + [last];
      LogIsFirstCome(h, ver, init, k);
      var opens := (op: Op) => Opens(h, ver, k, op);
      var log, i := Run(h, ver, map[], init), First(init, opens, 0);
      FirstSnoc(init, last, opens, 0);
      if i < n {
        StepTurns(h, ver, log, last, k);
        FateSnoc(ver, k, ops[i].p, init[i + 1..], last);
        assert init[i + 1..] + [last] == ops[i + 1..];
      } else {
        StepOpens(h, ver, log, last, k);
        NoFateYet(ver, k, last);
        assert ops[n + 1..] == [];
      }
    }
  }

  lemma NoFateYet(ver: Verifier, k: Hash, op: Op)
    ensures op.RecordPropose? ==> Fate(ver, k, op.p, []) == Proposed(op.p)
  {
  }

  /** The party that a proposal's next message must come from. */
  function Expected(p: Propose, op: Op): PublicKey { if op.ApplyExecute? then p.from else p.to }

  /** What each verdict says about the log and the message. */
  lemma VerdictMeans(h: HashFn, ver: Verifier, log: Log, op: Op)
    requires op.ApplyAccept? || op.ApplyReject? || op.ApplyCounter? || op.ApplyExecute?
    ensures var k, r := Target(op), Step(h, ver, log, op).1;
            && (r.Ok? <==> && k in log && (if op.ApplyExecute? then log[k].Accepted? && Fulfils(ver, k, log[k].propose, op)
                                           else log[k].Proposed? && Answers(ver, k, log[k].propose, op))
                           && (op.ApplyAccept? ==> op.a.acceptedAt <= log[k].propose.validUntil))
            && (r.Err? ==> match r.error
                  case SignatureInvalid => !Authentic(ver, op) || (k in log && Signatory(op) != Expected(log[k].propose, op))
                  case UnknownProposal(hash) => Authentic(ver, op) && hash == k && k !in log
                  case IllegalTransition(st, event) =>
                    && Authentic(ver, op) && k in log && st == log[k] && event == EventOf(op)
                    && (if op.ApplyExecute? then !st.Accepted? else !st.Proposed?)
                  case Late(now) => op.ApplyAccept? && now == op.a.acceptedAt && k in log && now > log[k].propose.validUntil)
  {
  }

  function Signatory(op: Op): PublicKey
    requires op.ApplyAccept? || op.ApplyReject? || op.ApplyCounter? || op.ApplyExecute?
  {
    match op case ApplyAccept(a) => a.party case ApplyReject(r) => r.party case ApplyCounter(c) => c.party case ApplyExecute(e) => e.party
  }

  function EventOf(op: Op): Event
    requires op.ApplyAccept? || op.ApplyReject? || op.ApplyCounter? || op.ApplyExecute?
  {
    match op case ApplyAccept(_) => AcceptEvent case ApplyReject(_) => RejectEvent case ApplyCounter(_) => CounterEvent case ApplyExecute(_) => ExecuteEvent
  }

  // ----- the log as an object -----

  lemma Reinsert(log: Log, k: Hash, st: ProposalState)
    ensures (log - {k})[k := st] == log[k := st]
  {
  }

  class ProposalBook {
    const h: HashFn
    const ver: Verifier
    var byHash: Log

    constructor (h: HashFn, ver: Verifier)
      ensures this.h == h && this.ver == ver && byHash == map[]
    {
      this.h, this.ver, byHash := h, ver, map[];
    }

    method Record(p: Propose) returns (r: Outcome, k: Hash)
      modifies this
      ensures (byHash, r) == Step(h, ver, old(byHash), RecordPropose(p))
      ensures r.Ok? ==> k == ProposalHash(h, p) && k in byHash
    {
      k := h(ProposeBytes(p));
      if !ver(p.from, ProposeBytes(p), p.sig) {
        return Err(SignatureInvalid), k;
      }
      if k !in byHash {
        byHash := byHash[k := Proposed(p)];
      }
      r := Ok(());
    }

    method Accept(a: Accept) returns (r: Outcome)
      modifies this
      ensures (byHash, r) == Step(h, ver, old(byHash), ApplyAccept(a))
    {
      if !ver(a.party, AcceptBytes(a), a.sig) {
        return Err(SignatureInvalid);
      }
      var k := a.proposalHash;
      if k !in byHash {
        return Err(UnknownProposal(k));
      }
      var st := byHash[k];
      byHash := byHash - {k};
      match st {
        case Proposed(propose) =>
          if a.party != propose.to {
            byHash := byHash[k := st];
            r := Err(SignatureInvalid);
          } else if a.acceptedAt > propose.validUntil {
            byHash := byHash[k := Expired(propose, a.acceptedAt)];
            r := Err(Late(a.acceptedAt));
          } else {
            byHash := byHash[k := Accepted(propose, a)];
            r := Ok(());
          }
        case _ =>
          byHash := byHash[k := st];
          r := Err(IllegalTransition(st, AcceptEvent));
      }
      Reinsert(old(byHash), k, byHash[k]);
    }

    method Reject(m: Reject) returns (r: Outcome)
      modifies this
      ensures (byHash, r) == Step(h, ver, old(byHash), ApplyReject(m))
    {
      if !ver(m.party, RejectBytes(m), m.sig) {
        return Err(SignatureInvalid);
      }
      var k := m.proposalHash;
      if k !in byHash {
        return Err(UnknownProposal(k));
      }
      var st := byHash[k];
      byHash := byHash - {k};
      match st {
        case Proposed(propose) =>
          if m.party != propose.to {
            byHash := byHash[k := st];
            r := Err(SignatureInvalid);
          } else {
            byHash := byHash[k := Rejected(propose, m)];
            r := Ok(());
          }
        case _ =>
          byHash := byHash[k := st];
          r := Err(IllegalTransition(st, RejectEvent));
      }
      Reinsert(old(byHash), k, byHash[k]);
    }

    method Counter(c: CounterPropose) returns (r: Outcome)
      modifies this
      ensures (byHash, r) == Step(h, ver, old(byHash), ApplyCounter(c))
    {
      if !ver(c.party, CounterBytes(c), c.sig) {
        return Err(SignatureInvalid);
      }
      var k := c.originalHash;
      if k !in byHash {
        return Err(UnknownProposal(k));
      }
      var st := byHash[k];
      byHash := byHash - {k};
      match st {
        case Proposed(propose) =>
          if c.party != propose.to {
            byHash := byHash[k := st];
            r := Err(SignatureInvalid);
          } else {
            byHash := byHash[k := CounterProposed(propose, c)];
            r := Ok(());
          }
        case _ =>
          byHash := byHash[k := st];
          r := Err(IllegalTransition(st, CounterEvent));
      }
      Reinsert(old(byHash), k, byHash[k]);
    }

    method Execute(e: Execute) returns (r: Outcome)
      modifies this
      ensures (byHash, r) == Step(h, ver, old(byHash), ApplyExecute(e))
    {
      if !ver(e.party, ExecuteBytes(e), e.sig) {
        return Err(SignatureInvalid);
      }
      var k := e.proposalHash;
      if k !in byHash {
        return Err(UnknownProposal(k));
      }
      var st := byHash[k];
      byHash := byHash - {k};
      match st {
        case Accepted(propose, accept) =>
          if e.party != propose.from {
            byHash := byHash[k := st];
            r := Err(SignatureInvalid);
          } else {
            byHash := byHash[k := Executed(propose, accept, e)];
            r := Ok(());
          }
        case _ =>
          byHash := byHash[k := st];
          r := Err(IllegalTransition(st, ExecuteEvent));
      }
      Reinsert(old(byHash), k, byHash[k]);
    }

    /** Expire every overdue proposal; returns the hashes that changed, each once. */
    method Expire(now: u64) returns (expired: seq<Hash>)
      modifies this
      ensures byHash == Step(h, ver, old(byHash), ExpireDue(now)).0
      ensures forall k :: k in expired <==> k in old(byHash) && Overdue(old(byHash)[k], now)
      ensures forall i, j :: 0 <= i < j < |expired| ==> expired[i] != expired[j]
    {
      expired := [];
      var todo := byHash.Keys;
      ghost var before := byHash;
      while todo != {}
        invariant todo <= before.Keys && byHash.Keys == before.Keys
        invariant forall k :: k in before ==>
          byHash[k] == if k !in todo && Overdue(before[k], now) then Expired(before[k].propose, now) else before[k]
        invariant forall k :: k in expired <==> k in before && k !in todo && Overdue(before[k], now)
        invariant forall i, j :: 0 <= i < j < |expired| ==> expired[i] != expired[j]
        decreases todo
      {
        var k :| k in todo;
        todo := todo - {k};
        if Overdue(byHash[k], now) {
          byHash := byHash[k := Expired(byHash[k].propose, now)];
          expired := expired + [k];
        }
      }
    }
  }
}
