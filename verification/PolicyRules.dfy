/**
 The spending policy in its own terms (agent_wallet/src/policy.rs): lists, expiry and the
 total of a window decide every call, whatever the tracker keeps.
 */
module PolicyRules {
  import opened Bytes
  import opened Encodings
  import opened SpendPolicy

  /** The contract is on its list, when there is a list. */
  ghost predicate ContractListed(p: KeyPolicy, call: Call) {
    call.Admit? && |p.allowedContracts| > 0 ==> exists i :: 0 <= i < |p.allowedContracts| && p.allowedContracts[i] == call.contract
  }

  ghost predicate CounterpartyListed(p: KeyPolicy, call: Call) {
    call.Admit? && |p.allowedCounterparties| > 0 ==>
      exists i :: 0 <= i < |p.allowedCounterparties| && p.allowedCounterparties[i] == call.counterparty
  }

  /** On the lists, and before the policy's end, when it has one. */
  ghost predicate Permitted(p: KeyPolicy, call: Call) {
    ContractListed(p, call) && CounterpartyListed(p, call) && (p.expiryUnix == 0 || call.now < p.expiryUnix)
  }

  /** What each verdict on a spend says, when the queue totals `total` after eviction. */
  lemma VerdictSays(p: KeyPolicy, queue: Spends, call: Call)
    requires !call.Query?
    ensures var total := Saturated(Sum(Evict(queue, Cutoff(p, call.now))));
            match QueueStep(p, queue, call).1
            case Admitted => Permitted(p, call) && total + call.amount <= p.capPerWindow
            case Overspend(w) =>
              && Permitted(p, call) && total + call.amount > p.capPerWindow
              && w == if total + call.amount > U128_MAX then U128_MAX else total + call.amount
            case PolicyExpired => ContractListed(p, call) && CounterpartyListed(p, call) && 0 < p.expiryUnix <= call.now
            case ContractDisallowed => !ContractListed(p, call)
            case CounterpartyDisallowed => ContractListed(p, call) && !CounterpartyListed(p, call)
  {
    hide Sum, Evict;
  }

  /** So a spend is admitted exactly when it is permitted and fits. */
  lemma AdmittedExactly(p: KeyPolicy, queue: Spends, call: Call)
    requires !call.Query?
    ensures QueueStep(p, queue, call).1.Admitted?
       <==> Permitted(p, call) && Saturated(Sum(Evict(queue, Cutoff(p, call.now)))) + call.amount <= p.capPerWindow
  {
    hide Sum, Evict, QueueStep;
    VerdictSays(p, queue, call);
  }

  // ----- over a run -----

  lemma {:induction false} VerdictAt(p: KeyPolicy, calls: seq<Call>, n: nat)
    requires n < |calls|
    ensures RunQueue(p, calls).1[n] == QueueStep(p, RunQueue(p, calls[..n]).0, calls[n]).1
  {
    hide QueueStep;
    var init := calls[..|calls| - 1];
    if n < |init| {
      VerdictAt(p, init, n);
      assert init[..n] == calls[..n];
    }
  }

  /** Whatever the clock does, every spend that is taken is permitted: on the lists, and before the policy's end. */
  lemma TakenIsPermitted(p: KeyPolicy, calls: seq<Call>, n: nat)
    requires n < |calls| && !calls[n].Query? && RunQueue(p, calls).1[n].Admitted?
    ensures Permitted(p, calls[n])
  {
    hide QueueStep, RunQueue, Sum, Evict, Permitted;
    VerdictAt(p, calls, n);
    AdmittedExactly(p, RunQueue(p, calls[..n]).0, calls[n]);
  }

  lemma {:induction false} SinceIsWindow(p: KeyPolicy, s: Spends, t: nat)
    requires forall i :: 0 <= i < |s| ==> s[i].at <= t
    ensures Since(s, Cutoff(p, t)) == InWindow(p, s, t)
  {
    if s != [] {
      SinceIsWindow(p, s[..|s| - 1], t);
    }
  }

  /** On a clock that never goes back, the tracker's total is that of the admitted spends in the window. */
  lemma TotalIsWindow(p: KeyPolicy, calls: seq<Call>, now: u64)
    requires Monotone(calls) && (calls != [] ==> calls[|calls| - 1].now <= now)
    ensures Saturated(Sum(Evict(RunQueue(p, calls).0, Cutoff(p, now)))) == Sum(InWindow(p, Tracked(p, calls), now))
  {
    hide RunQueue, RunHistory, Sum, Evict, InWindow, Since, Tracked, Suffix;
    RunAgrees(p, calls);
    HistorySorted(p, calls);
    QueueUnderCap(p, calls);
    MonotoneWindow(p, calls, 0);
    var c := if calls == [] then 0 else Cutoff(p, calls[|calls| - 1].now);
    SameTotal(p, RunQueue(p, calls).0, RunHistory(p, calls).0, c, Cutoff(p, now));
    NoHistory(p);
    SinceIsWindow(p, RunHistory(p, calls).0, now);
  }

  lemma NoHistory(p: KeyPolicy)
    ensures RunHistory(p, []).0 == []
  {
  }

  /**
   On a clock that never goes back, a spend is admitted exactly when it is permitted and,
   together with what was admitted before it in the window that ends with it, stays within
   the cap.
   */
  lemma AdmittedOnTime(p: KeyPolicy, calls: seq<Call>, n: nat)
    requires Monotone(calls) && n < |calls| && !calls[n].Query?
    ensures RunQueue(p, calls).1[n].Admitted?
       <==> Permitted(p, calls[n]) && Sum(InWindow(p, Tracked(p, calls[..n]), calls[n].now)) + calls[n].amount <= p.capPerWindow
  {
    hide QueueStep, RunQueue, Sum, Evict, InWindow, Tracked, Permitted;
    VerdictAt(p, calls, n);
    AdmittedExactly(p, RunQueue(p, calls[..n]).0, calls[n]);
    assert Monotone(calls[..n]);
    TotalIsWindow(p, calls[..n], calls[n].now);
  }
}
