/**
 The sliding-window spending tracker (agent_wallet/src/policy.rs).

 The tracker keeps a queue and forgets from its front.  The reference keeps the whole
 history of admitted spends and filters it by time on every call.
 */
module SpendPolicy {
  import opened Bytes
  import opened Encodings

  const U128_MAX: u128 := 0xffff_ffff_ffff_ffff_ffff_ffff_ffff_ffff

  datatype Spend = Spend(at: u64, amount: u128)
  type Spends = seq<Spend>

  datatype Verdict = Admitted | PolicyExpired | Overspend(wouldSpend: u128) | ContractDisallowed | CounterpartyDisallowed

  datatype Call =
    | Query(now: u64)
    | TrySpend(now: u64, amount: u128)
    | Admit(now: u64, contract: Bytes, counterparty: PublicKey, amount: u128)

  function Cutoff(p: KeyPolicy, now: nat): nat {
    if now < p.windowSecs then 0 else now - p.windowSecs
  }

  function Sum(s: Spends): nat {
    if s == [] then 0 else Sum(s[..|s| - 1]) + s[|s| - 1].amount
  }

  predicate AllowsContract(p: KeyPolicy, contract: Bytes) {
    p.allowedContracts == [] || contract in p.allowedContracts
  }

  predicate AllowsCounterparty(p: KeyPolicy, who: PublicKey) {
    p.allowedCounterparties == [] || who in p.allowedCounterparties
  }

  predicate IsExpired(p: KeyPolicy, now: u64) {
    p.expiryUnix != 0 && now >= p.expiryUnix
  }

  /** The checks that come before the amount is looked at. */
  function Precheck(p: KeyPolicy, call: Call): Verdict {
    if call.Admit? && !AllowsContract(p, call.contract) then ContractDisallowed
    else if call.Admit? && !AllowsCounterparty(p, call.counterparty) then CounterpartyDisallowed
    else if !call.Query? && IsExpired(p, call.now) then PolicyExpired
    else Admitted
  }

  /** The verdict on an amount when `total` was spent in the window. */
  function Judge(p: KeyPolicy, total: nat, amount: u128): Verdict {
    if total + amount > U128_MAX then Overspend(U128_MAX)
    else if total + amount > p.capPerWindow then Overspend(total + amount)
    else Admitted
  }

  // ----- the queue -----

  function Evict(s: Spends, cutoff: nat): Spends {
    if s != [] && s[0].at < cutoff then Evict(s[1..], cutoff) else s
  }

  function Saturated(n: nat): u128 {
    if n > U128_MAX then U128_MAX else n
  }

  function QueueStep(p: KeyPolicy, queue: Spends, call: Call): (Spends, Verdict) {
    if !Precheck(p, call).Admitted? then (queue, Precheck(p, call))
    else
      var kept := Evict(queue, Cutoff(p, call.now));
      if call.Query? then (kept, Admitted)
      else
        var v := Judge(p, Saturated(Sum(kept)), call.amount);
        (if v.Admitted? then kept + [Spend(call.now, call.amount)] else kept, v)
  }

  // ----- the reference -----

  function Keep(keep: bool, s: Spend): Spends {
    if keep then [s] else []
  }

  function Since(history: Spends, cutoff: nat): Spends {
    if history == [] then []
    else
      var last := history[|history| - 1];
      Since(history[..|history| - 1], cutoff) + Keep(last.at >= cutoff, last)
  }

  function HistoryStep(p: KeyPolicy, history: Spends, call: Call): (Spends, Verdict) {
    if !Precheck(p, call).Admitted? then (history, Precheck(p, call))
    else if call.Query? then (history, Admitted)
    else
      var v := Judge(p, Sum(Since(history, Cutoff(p, call.now))), call.amount);
      (if v.Admitted? then history + [Spend(call.now, call.amount)] else history, v)
  }

  function RunQueue(p: KeyPolicy, calls: seq<Call>): (r: (Spends, seq<Verdict>))
    ensures |r.1| == |calls|
  {
    if calls == [] then ([], [])
    else
      var (q, vs) := RunQueue(p, calls[..|calls| - 1]);
      var (q', v) := QueueStep(p, q, calls[|calls| - 1]);
      (q', vs + [v])
  }

  function RunHistory(p: KeyPolicy, calls: seq<Call>): (r: (Spends, seq<Verdict>))
    ensures |r.1| == |calls|
  {
    if calls == [] then ([], [])
    else
      var (h, vs) := RunHistory(p, calls[..|calls| - 1]);
      var (h', v) := HistoryStep(p, h, calls[|calls| - 1]);
      (h', vs + [v])
  }

  ghost predicate Monotone(calls: seq<Call>) {
    forall i, j :: 0 <= i < j < |calls| ==> calls[i].now <= calls[j].now
  }

  ghost predicate Sorted(s: Spends) {
    forall i, j :: 0 <= i < j < |s| ==> s[i].at <= s[j].at
  }

  // ----- sums -----

  lemma {:induction false} SumConcat(a: Spends, b: Spends)
    ensures Sum(a + b) == Sum(a) + Sum(b)
  {
    if b == [] {
      assert a + b == a;
    } else {
      SumConcat(a, b[..|b| - 1]);
      assert (a + b)[..|a + b| - 1] == a + b[..|b| - 1];
    }
  }

  lemma SumKeep(a: Spends, keep: bool, s: Spend)
    ensures Sum(a + Keep(keep, s)) == Sum(a) + if keep then s.amount else 0
  {
    if keep {
      assert (a + [s])[..|a|] == a;
    } else {
      assert a + [] == a;
    }
  }

  lemma {:induction false} EvictShrinks(s: Spends, cutoff: nat)
    ensures Sum(Evict(s, cutoff)) <= Sum(s)
    ensures exists n :: 0 <= n <= |s| && Evict(s, cutoff) == s[n..]
  {
    if s != [] && s[0].at < cutoff {
      EvictShrinks(s[1..], cutoff);
      assert s == s[..1] + s[1..];
      SumConcat(s[..1], s[1..]);
      var n :| 0 <= n <= |s[1..]| && Evict(s[1..], cutoff) == s[1..][n..];
      assert s[1..][n..] == s[n + 1..];
    } else {
      assert s == s[0..];
    }
  }

  lemma NoSum()
    ensures Sum([]) == 0
  {
  }

  lemma StepUnderCap(p: KeyPolicy, queue: Spends, call: Call)
    requires Sum(queue) <= p.capPerWindow
    ensures Sum(QueueStep(p, queue, call).0) <= p.capPerWindow
  {
    hide Evict, Sum;
    var kept := Evict(queue, Cutoff(p, call.now));
    EvictShrinks(queue, Cutoff(p, call.now));
    if !call.Query? {
      SumKeep(kept, true, Spend(call.now, call.amount));
    }
  }

  /** Whatever the clock does, the queue never holds more than the cap, so no sum saturates. */
  lemma {:induction false} QueueUnderCap(p: KeyPolicy, calls: seq<Call>)
    ensures Sum(RunQueue(p, calls).0) <= p.capPerWindow
    ensures forall cutoff :: Saturated(Sum(Evict(RunQueue(p, calls).0, cutoff))) == Sum(Evict(RunQueue(p, calls).0, cutoff))
  {
    hide Evict, Sum, QueueStep;
    var q := RunQueue(p, calls).0;
    if calls == [] {
      NoSum();
    } else {
      QueueUnderCap(p, calls[..|calls| - 1]);
      StepUnderCap(p, RunQueue(p, calls[..|calls| - 1]).0, calls[|calls| - 1]);
    }
    forall cutoff
      ensures Saturated(Sum(Evict(q, cutoff))) == Sum(Evict(q, cutoff))
    {
      EvictShrinks(q, cutoff);
    }
  }

  // ----- the queue agrees with the history while the clock does not go back -----

  lemma {:induction false} SinceConcat(a: Spends, b: Spends, cutoff: nat)
    ensures Since(a + b, cutoff) == Since(a, cutoff) + Since(b, cutoff)
  {
    hide Since;
    if b == [] {
      SinceNothing(a, cutoff);
    } else {
      var init, last := b[..|b| - 1], b[|b| - 1];
      SinceConcat(a, init, cutoff);
      SinceSnoc(a + init, last, cutoff);
      SinceSnoc(init, last, cutoff);
      assert b == init + [last] && a + b == a + init + [last];
      Regroup(Since(a, cutoff), Since(init, cutoff), Keep(last.at >= cutoff, last));
    }
  }

  lemma SinceNothing(a: Spends, cutoff: nat)
    ensures Since(a + [], cutoff) == Since(a, cutoff) + Since([], cutoff)
  {
    assert a + [] == a;
  }

  lemma SinceSnoc(s: Spends, spend: Spend, cutoff: nat)
    ensures Since(s + [spend], cutoff) == Since(s, cutoff) + Keep(spend.at >= cutoff, spend)
  {
    assert (s + [spend])[..|s|] == s;
  }

  lemma Regroup(a: Spends, b: Spends, c: Spends)
    ensures a + b + c == a + (b + c)
  {
  }

  lemma {:induction false} SinceOld(s: Spends, cutoff: nat)
    requires forall i :: 0 <= i < |s| ==> s[i].at < cutoff
    ensures Since(s, cutoff) == []
  {
    if s != [] {
      SinceOld(s[..|s| - 1], cutoff);
    }
  }

  lemma {:induction false} SinceNew(s: Spends, cutoff: nat)
    requires forall i :: 0 <= i < |s| ==> s[i].at >= cutoff
    ensures Since(s, cutoff) == s
  {
    if s != [] {
      SinceNew(s[..|s| - 1], cutoff);
      assert s == s[..|s| - 1] + [s[|s| - 1]];
    }
  }

  /** `queue` is what follows the first `n` entries, and those are older than `cutoff`. */
  ghost predicate SuffixAt(history: Spends, queue: Spends, cutoff: nat, n: nat) {
    n <= |history| && history[n..] == queue && forall i :: 0 <= i < n ==> history[i].at < cutoff
  }

  /** The queue is a suffix of the history, and what is missing is older than `cutoff`. */
  ghost predicate Suffix(history: Spends, queue: Spends, cutoff: nat) {
    exists n: nat :: SuffixAt(history, queue, cutoff, n)
  }

  lemma SinceTail(s: Spends, cutoff: nat)
    requires s != [] && s[0].at < cutoff
    ensures Since(s, cutoff) == Since(s[1..], cutoff)
  {
    SinceConcat([s[0]], s[1..], cutoff);
    assert s == [s[0]] + s[1..];
    SinceOld([s[0]], cutoff);
  }

  /** On a sorted queue, forgetting from the front is filtering. */
  lemma {:induction false} EvictIsSince(s: Spends, cutoff: nat) returns (n: nat)
    requires Sorted(s)
    ensures Evict(s, cutoff) == Since(s, cutoff)
    ensures SuffixAt(s, Evict(s, cutoff), cutoff, n)
  {
    hide Since;
    if s != [] && s[0].at < cutoff {
      assert Sorted(s[1..]);
      var m := EvictIsSince(s[1..], cutoff);
      SinceTail(s, cutoff);
      n := m + 1;
      assert SuffixAt(s, s[1..], cutoff, 1);
      SuffixChain(s, s[1..], Evict(s[1..], cutoff), cutoff, cutoff, 1, m);
    } else {
      SinceNew(s, cutoff);
      n := 0;
    }
  }

  lemma SuffixChain(history: Spends, queue: Spends, kept: Spends, c: nat, cutoff: nat, n: nat, m: nat)
    requires SuffixAt(history, queue, c, n) && SuffixAt(queue, kept, cutoff, m) && c <= cutoff
    ensures SuffixAt(history, kept, cutoff, n + m)
  {
    assert history[n + m..] == queue[m..];
    forall i | 0 <= i < n + m
      ensures history[i].at < cutoff
    {
      assert i >= n ==> history[i] == queue[i - n];
    }
  }

  lemma SuffixSince(history: Spends, queue: Spends, c: nat, cutoff: nat)
    requires Suffix(history, queue, c) && c <= cutoff && Sorted(history)
    ensures Evict(queue, cutoff) == Since(history, cutoff)
    ensures Suffix(history, Evict(queue, cutoff), cutoff)
  {
    var n: nat :| SuffixAt(history, queue, c, n);
    assert history[n..] == queue;
    assert history == history[..n] + history[n..];
    SinceConcat(history[..n], queue, cutoff);
    SinceOld(history[..n], cutoff);
    var m := EvictIsSince(queue, cutoff);
    SuffixChain(history, queue, Evict(queue, cutoff), c, cutoff, n, m);
  }

  lemma SuffixAppend(history: Spends, queue: Spends, c: nat, s: Spend)
    requires Suffix(history, queue, c)
    ensures Suffix(history + [s], queue + [s], c)
  {
    var n: nat :| SuffixAt(history, queue, c, n);
    assert SuffixAt(history + [s], queue + [s], c, n);
  }

  /** The totals the two sides judge by are the same. */
  lemma SameTotal(p: KeyPolicy, queue: Spends, history: Spends, c: nat, cutoff: nat)
    requires Sum(queue) <= p.capPerWindow && Sorted(history) && Suffix(history, queue, c) && c <= cutoff
    ensures Saturated(Sum(Evict(queue, cutoff))) == Sum(Since(history, cutoff))
    ensures Suffix(history, Evict(queue, cutoff), cutoff)
  {
    SuffixSince(history, queue, c, cutoff);
    EvictShrinks(queue, cutoff);
  }

  lemma SuffixWeaken(history: Spends, queue: Spends, c: nat, cutoff: nat)
    requires Suffix(history, queue, c) && c <= cutoff
    ensures Suffix(history, queue, cutoff)
  {
    var n: nat :| SuffixAt(history, queue, c, n);
    assert SuffixAt(history, queue, cutoff, n);
  }

  /** One call: same verdict, and the queue stays a suffix of the history. */
  lemma StepAgrees(p: KeyPolicy, queue: Spends, history: Spends, c: nat, call: Call)
    requires Sum(queue) <= p.capPerWindow && Sorted(history) && Suffix(history, queue, c) && c <= Cutoff(p, call.now)
    ensures QueueStep(p, queue, call).1 == HistoryStep(p, history, call).1
    ensures Suffix(HistoryStep(p, history, call).0, QueueStep(p, queue, call).0, Cutoff(p, call.now))
  {
    var cutoff := Cutoff(p, call.now);
    if Precheck(p, call).Admitted? {
      SameTotal(p, queue, history, c, cutoff);
      if !call.Query? {
        SuffixAppend(history, Evict(queue, cutoff), cutoff, Spend(call.now, call.amount));
      }
    } else {
      SuffixWeaken(history, queue, c, cutoff);
    }
  }

  lemma {:induction false} HistorySorted(p: KeyPolicy, calls: seq<Call>)
    requires Monotone(calls)
    ensures Sorted(RunHistory(p, calls).0)
    ensures calls != [] ==> forall i :: 0 <= i < |RunHistory(p, calls).0| ==> RunHistory(p, calls).0[i].at <= calls[|calls| - 1].now
  {
    if calls != [] {
      HistorySorted(p, calls[..|calls| - 1]);
    }
  }

  lemma {:induction false} RunAgrees(p: KeyPolicy, calls: seq<Call>)
    requires Monotone(calls)
    ensures RunQueue(p, calls).1 == RunHistory(p, calls).1
    ensures Suffix(RunHistory(p, calls).0, RunQueue(p, calls).0,
                   if calls == [] then 0 else Cutoff(p, calls[|calls| - 1].now))
  {
    if calls == [] {
      assert SuffixAt([], [], 0, 0);
    } else {
      var init, call := calls[..|calls| - 1], calls[|calls| - 1];
      RunAgrees(p, init);
      HistorySorted(p, init);
      QueueUnderCap(p, init);
      var c := if init == [] then 0 else Cutoff(p, init[|init| - 1].now);
      StepAgrees(p, RunQueue(p, init).0, RunHistory(p, init).0, c, call);
    }
  }

  /** The tracker decides every call as the filter over the full history does. */
  lemma TrackerMatchesHistory(p: KeyPolicy, calls: seq<Call>)
    requires Monotone(calls)
    ensures RunQueue(p, calls).1 == RunHistory(p, calls).1
  {
    RunAgrees(p, calls);
  }

  // ----- the cap holds in every window -----

  /** What was admitted in the window that ends at `t`. */
  function InWindow(p: KeyPolicy, history: Spends, t: nat): Spends {
    if history == [] then []
    else
      var last := history[|history| - 1];
      InWindow(p, history[..|history| - 1], t) + Keep(Cutoff(p, t) <= last.at <= t, last)
  }

  lemma {:induction false} WindowBelowSince(p: KeyPolicy, history: Spends, t: nat, cutoff: nat)
    requires cutoff <= Cutoff(p, t)
    ensures Sum(InWindow(p, history, t)) <= Sum(Since(history, cutoff))
  {
    if history != [] {
      var init, last := history[..|history| - 1], history[|history| - 1];
      WindowBelowSince(p, init, t, cutoff);
      SumKeep(InWindow(p, init, t), Cutoff(p, t) <= last.at <= t, last);
      SumKeep(Since(init, cutoff), last.at >= cutoff, last);
    }
  }

  /** No window of the reference's history exceeds the cap, whenever it ends and whatever the clock does. */
  lemma {:induction false} HistoryUnderCap(p: KeyPolicy, calls: seq<Call>, t: nat)
    ensures Sum(InWindow(p, RunHistory(p, calls).0, t)) <= p.capPerWindow
  {
    if calls != [] {
      var init, call := calls[..|calls| - 1], calls[|calls| - 1];
      HistoryUnderCap(p, init, t);
      var h := RunHistory(p, init).0;
      if HistoryStep(p, h, call).0 != h {
        WindowAppend(p, h, Spend(call.now, call.amount), t);
      }
    }
  }

  lemma WindowAppend(p: KeyPolicy, h: Spends, s: Spend, t: nat)
    requires Sum(InWindow(p, h, t)) <= p.capPerWindow
    requires Sum(Since(h, Cutoff(p, s.at))) + s.amount <= p.capPerWindow
    ensures Sum(InWindow(p, h + [s], t)) <= p.capPerWindow
  {
    assert (h + [s])[..|h|] == h;
    SumKeep(InWindow(p, h, t), Cutoff(p, t) <= s.at <= t, s);
    if s.at <= t {
      WindowBelowSince(p, h, t, Cutoff(p, s.at));
    }
  }

  // --- what the tracker admits ---

  function Took(call: Call, v: Verdict): Spends {
    if !call.Query? && v.Admitted? then [Spend(call.now, call.amount)] else []
  }

  /** The spends of the calls that were admitted. */
  function Taken(calls: seq<Call>, verdicts: seq<Verdict>): Spends
    requires |calls| == |verdicts|
  {
    if calls == [] then []
    else Taken(calls[..|calls| - 1], verdicts[..|calls| - 1]) + Took(calls[|calls| - 1], verdicts[|calls| - 1])
  }

  function Tracked(p: KeyPolicy, calls: seq<Call>): Spends { Taken(calls, RunQueue(p, calls).1) }

  lemma TrackedSnoc(p: KeyPolicy, calls: seq<Call>, call: Call)
    ensures Tracked(p, calls + [call]) == Tracked(p, calls) + Took(call, QueueStep(p, RunQueue(p, calls).0, call).1)
  {
    RunQueueSnoc(p, calls, call);
    assert (calls + [call])[..|calls|] == calls;
    assert RunQueue(p, calls + [call]).1[..|calls|] == RunQueue(p, calls).1;
  }

  /** The spends that the reference's verdicts take are its history. */
  lemma {:induction false} TakenIsHistory(p: KeyPolicy, calls: seq<Call>)
    ensures Taken(calls, RunHistory(p, calls).1) == RunHistory(p, calls).0
  {
    if calls != [] {
      var init := calls[..|calls| - 1];
      TakenIsHistory(p, init);
      assert RunHistory(p, calls).1[..|calls| - 1] == RunHistory(p, init).1;
    }
  }

  // --- which clocks are safe ---

  predicate Near(w: nat, a: nat, b: nat) { a <= b + w && b <= a + w }

  /** The clock passes the window of an earlier reading and then returns to within a window of it. */
  predicate Trap(w: nat, clock: seq<u64>, k: nat, i: nat, j: nat) {
    k < i < j < |clock| && clock[k] + w < clock[i] && Near(w, clock[k], clock[j])
  }

  ghost predicate ClockSafe(w: nat, clock: seq<u64>) {
    forall k: nat, i: nat, j: nat :: !Trap(w, clock, k, i, j)
  }

  function Clock(calls: seq<Call>): (c: seq<u64>)
    ensures |c| == |calls|
  {
    seq(|calls|, i requires 0 <= i < |calls| => calls[i].now)
  }

  /** No window of what the tracker admitted exceeds the cap. */
  ghost predicate WindowHolds(p: KeyPolicy, calls: seq<Call>) {
    forall t: nat :: Sum(InWindow(p, Tracked(p, calls), t)) <= p.capPerWindow
  }

  /** A clock that never goes back is safe. */
  lemma MonotoneIsSafe(w: nat, calls: seq<Call>)
    requires Monotone(calls)
    ensures ClockSafe(w, Clock(calls))
  {
  }

  /** A reading `a` of the clock, and later one more than a window past it. */
  ghost predicate Passed(w: nat, clock: seq<u64>, a: nat) {
    exists k: nat, i: nat :: k < i < |clock| && clock[k] == a && a + w < clock[i]
  }

  ghost predicate Reading(clock: seq<u64>, a: nat) {
    exists k: nat :: k < |clock| && clock[k] == a
  }

  /** How many entries eviction pops, and how many it has popped over a run. */
  function Popped(s: Spends, cutoff: nat): nat {
    if s != [] && s[0].at < cutoff then 1 + Popped(s[1..], cutoff) else 0
  }

  function Dropped(p: KeyPolicy, calls: seq<Call>): nat {
    if calls == [] then 0
    else
      var init, call := calls[..|calls| - 1], calls[|calls| - 1];
      Dropped(p, init) + if Precheck(p, call).Admitted? then Popped(RunQueue(p, init).0, Cutoff(p, call.now)) else 0
  }

  lemma {:induction false} EvictPops(s: Spends, cutoff: nat)
    ensures Popped(s, cutoff) <= |s| && Evict(s, cutoff) == s[Popped(s, cutoff)..]
    ensures forall x :: 0 <= x < Popped(s, cutoff) ==> s[x].at < cutoff
  {
    if s != [] && s[0].at < cutoff {
      EvictPops(s[1..], cutoff);
      var n := Popped(s[1..], cutoff);
      assert s[1..][n..] == s[n + 1..];
      forall x | 0 <= x < n + 1
        ensures s[x].at < cutoff
      {
        assert x > 0 ==> s[x] == s[1..][x - 1];
      }
    }
  }

  /** The queue is what was taken without a beginning that the clock has passed. */
  ghost predicate Forgot(p: KeyPolicy, calls: seq<Call>) {
    var s, n := Tracked(p, calls), Dropped(p, calls);
    && n <= |s| && RunQueue(p, calls).0 == s[n..]
    && (forall x :: 0 <= x < |s| ==> Reading(Clock(calls), s[x].at))
    && (forall x :: 0 <= x < n ==> Passed(p.windowSecs, Clock(calls), s[x].at))
  }

  lemma PassedStays(w: nat, clock: seq<u64>, now: u64, a: nat)
    ensures Reading(clock, a) ==> Reading(clock + [now], a)
    ensures Passed(w, clock, a) ==> Passed(w, clock + [now], a)
    ensures Reading(clock, a) && a + w < now ==> Passed(w, clock + [now], a)
    ensures Reading(clock + [now], now)
  {
    var c := clock + [now];
    assert c[|clock|] == now;
    if Reading(clock, a) {
      var k: nat :| k < |clock| && clock[k] == a;
      assert c[k] == a;
    }
    if Passed(w, clock, a) {
      var k: nat, i: nat :| k < i < |clock| && clock[k] == a && a + w < clock[i];
      assert c[k] == a && c[i] == clock[i];
    }
  }

  lemma DropSnoc(p: KeyPolicy, calls: seq<Call>, call: Call)
    ensures Dropped(p, calls + [call])
         == Dropped(p, calls) + if Precheck(p, call).Admitted? then Popped(RunQueue(p, calls).0, Cutoff(p, call.now)) else 0
  {
    assert (calls + [call])[..|calls|] == calls;
  }

  /** What the next call pops is older than its window. */
  lemma NextDrop(p: KeyPolicy, calls: seq<Call>, call: Call)
    requires Forgot(p, calls)
    ensures var s, n, n' := Tracked(p, calls), Dropped(p, calls), Dropped(p, calls + [call]);
            && n <= n' <= |s|
            && (Precheck(p, call).Admitted? ==> Evict(RunQueue(p, calls).0, Cutoff(p, call.now)) == s[n'..])
            && (forall x :: n <= x < n' ==> s[x].at + p.windowSecs < call.now)
  {
    hide RunQueue, Tracked, Evict, Passed, Reading, Popped, Dropped;
    var s, n, queue := Tracked(p, calls), Dropped(p, calls), RunQueue(p, calls).0;
    DropSnoc(p, calls, call);
    if Precheck(p, call).Admitted? {
      var cutoff := Cutoff(p, call.now);
      EvictPops(queue, cutoff);
      assert s[n..][Popped(queue, cutoff)..] == s[n + Popped(queue, cutoff)..];
      assert forall x :: n <= x < n + Popped(queue, cutoff) ==> s[x] == queue[x - n];
    }
  }

  lemma ForgetStep(p: KeyPolicy, calls: seq<Call>, call: Call)
    requires Forgot(p, calls)
    ensures Forgot(p, calls + [call])
  {
    hide RunQueue, Tracked, Evict, Passed, Reading, Popped, Dropped, Clock, Sum;
    NextDrop(p, calls, call);
    var s, queue := Tracked(p, calls), RunQueue(p, calls).0;
    var n' := Dropped(p, calls + [call]);
    DropSnoc(p, calls, call);
    TrackedSnoc(p, calls, call);
    RunQueueSnoc(p, calls, call);
    ClockSnoc(calls, call);
    var took := Took(call, QueueStep(p, queue, call).1);
    assert (s + took)[n'..] == s[n'..] + took;
    forall x | 0 <= x < |s + took|
      ensures Reading(Clock(calls + [call]), (s + took)[x].at)
      ensures x < n' ==> Passed(p.windowSecs, Clock(calls + [call]), (s + took)[x].at)
    {
      PassedStays(p.windowSecs, Clock(calls), call.now, (s + took)[x].at);
    }
  }

  lemma ClockSnoc(calls: seq<Call>, call: Call)
    ensures Clock(calls + [call]) == Clock(calls) + [call.now]
  {
  }

  lemma NothingForgotten(p: KeyPolicy)
    ensures Forgot(p, [])
  {
  }

  lemma {:induction false} QueueForgets(p: KeyPolicy, calls: seq<Call>)
    ensures Forgot(p, calls)
  {
    hide Forgot;
    if calls == [] {
      NothingForgotten(p);
    } else {
      var init, call := calls[..|calls| - 1], calls[|calls| - 1];
      QueueForgets(p, init);
      ForgetStep(p, init, call);
      assert calls == init + [call];
    }
  }

  lemma {:induction false} WindowConcat(p: KeyPolicy, a: Spends, b: Spends, t: nat)
    ensures InWindow(p, a + b, t) == InWindow(p, a, t) + InWindow(p, b, t)
  {
    hide InWindow;
    if b == [] {
      WindowNothing(p, a, t);
    } else {
      var init, last := b[..|b| - 1], b[|b| - 1];
      WindowConcat(p, a, init, t);
      WindowSnoc(p, a + init, last, t);
      WindowSnoc(p, init, last, t);
      assert b == init + [last] && a + b == a + init + [last];
      Regroup(InWindow(p, a, t), InWindow(p, init, t), Keep(Cutoff(p, t) <= last.at <= t, last));
    }
  }

  lemma WindowNothing(p: KeyPolicy, a: Spends, t: nat)
    ensures InWindow(p, a + [], t) == InWindow(p, a, t) + InWindow(p, [], t)
  {
    assert a + [] == a;
  }

  lemma {:induction false} WindowBounds(p: KeyPolicy, s: Spends, t: nat)
    ensures Sum(InWindow(p, s, t)) <= Sum(s)
    ensures (forall x :: 0 <= x < |s| ==> !(Cutoff(p, t) <= s[x].at <= t)) ==> InWindow(p, s, t) == []
  {
    if s != [] {
      var init, last := s[..|s| - 1], s[|s| - 1];
      WindowBounds(p, init, t);
      SumKeep(InWindow(p, init, t), Cutoff(p, t) <= last.at <= t, last);
    }
  }

  /** A window that holds the new spend holds nothing that was forgotten. */
  lemma ForgottenIsFar(p: KeyPolicy, calls: seq<Call>, call: Call, t: nat)
    requires ClockSafe(p.windowSecs, Clock(calls + [call])) && Forgot(p, calls) && Cutoff(p, t) <= call.now <= t
    ensures Dropped(p, calls + [call]) <= |Tracked(p, calls)|
    ensures InWindow(p, Tracked(p, calls)[..Dropped(p, calls + [call])], t) == []
  {
    hide Tracked, RunQueue, Dropped, InWindow;
    NextDrop(p, calls, call);
    var s, n, n' := Tracked(p, calls), Dropped(p, calls), Dropped(p, calls + [call]);
    var w, clock := p.windowSecs, Clock(calls + [call]);
    ClockSnoc(calls, call);
    forall x | 0 <= x < n'
      ensures !(Cutoff(p, t) <= s[x].at <= t)
    {
      if x < n {
        var k: nat, i: nat :| k < i < |Clock(calls)| && Clock(calls)[k] == s[x].at && s[x].at + w < Clock(calls)[i];
        assert clock[k] == s[x].at && clock[i] == Clock(calls)[i] && clock[|calls|] == call.now;
        assert !Trap(w, clock, k, i, |calls|);
      }
    }
    WindowBounds(p, s[..n'], t);
  }

  lemma SafePrefix(w: nat, calls: seq<Call>, call: Call)
    requires ClockSafe(w, Clock(calls + [call]))
    ensures ClockSafe(w, Clock(calls))
  {
    ClockSnoc(calls, call);
    forall k: nat, i: nat, j: nat
      ensures !Trap(w, Clock(calls), k, i, j)
    {
      assert !Trap(w, Clock(calls + [call]), k, i, j);
    }
  }

  lemma WindowStep(p: KeyPolicy, calls: seq<Call>, call: Call, t: nat)
    requires ClockSafe(p.windowSecs, Clock(calls + [call])) && Sum(InWindow(p, Tracked(p, calls), t)) <= p.capPerWindow
    ensures Sum(InWindow(p, Tracked(p, calls + [call]), t)) <= p.capPerWindow
  {
    hide RunQueue, Tracked, QueueStep, Evict, InWindow, Sum, ClockSafe;
    TrackedSnoc(p, calls, call);
    var s, queue := Tracked(p, calls), RunQueue(p, calls).0;
    var took := Took(call, QueueStep(p, queue, call).1);
    if took == [] {
      assert s + took == s;
    } else {
      QueueForgets(p, calls);
      NextDrop(p, calls, call);
      QueueUnderCap(p, calls);
      TookFits(p, queue, call);
      if Cutoff(p, t) <= call.now <= t {
        ForgottenIsFar(p, calls, call, t);
      }
      AppendFits(p, s, Dropped(p, calls + [call]), Spend(call.now, call.amount), t);
    }
  }

  lemma TookFits(p: KeyPolicy, queue: Spends, call: Call)
    requires Took(call, QueueStep(p, queue, call).1) != []
    requires Saturated(Sum(Evict(queue, Cutoff(p, call.now)))) == Sum(Evict(queue, Cutoff(p, call.now)))
    ensures Precheck(p, call).Admitted? && !call.Query?
    ensures Took(call, QueueStep(p, queue, call).1) == [Spend(call.now, call.amount)]
    ensures Sum(Evict(queue, Cutoff(p, call.now))) + call.amount <= p.capPerWindow
  {
  }

  lemma AppendFits(p: KeyPolicy, s: Spends, n: nat, spend: Spend, t: nat)
    requires n <= |s| && Sum(InWindow(p, s, t)) <= p.capPerWindow && Sum(s[n..]) + spend.amount <= p.capPerWindow
    requires Cutoff(p, t) <= spend.at <= t ==> InWindow(p, s[..n], t) == []
    ensures Sum(InWindow(p, s + [spend], t)) <= p.capPerWindow
  {
    hide InWindow, Sum;
    WindowSnoc(p, s, spend, t);
    SumKeep(InWindow(p, s, t), Cutoff(p, t) <= spend.at <= t, spend);
    if Cutoff(p, t) <= spend.at <= t {
      assert s == s[..n] + s[n..];
      WindowConcat(p, s[..n], s[n..], t);
      assert [] + InWindow(p, s[n..], t) == InWindow(p, s[n..], t);
      WindowBounds(p, s[n..], t);
    }
  }

  lemma WindowSnoc(p: KeyPolicy, s: Spends, spend: Spend, t: nat)
    ensures InWindow(p, s + [spend], t) == InWindow(p, s, t) + Keep(Cutoff(p, t) <= spend.at <= t, spend)
  {
    assert (s + [spend])[..|s|] == s;
  }

  /** With a safe clock, the amounts the tracker admitted in any window total at most the cap. */
  lemma {:induction false} WindowUnderCap(p: KeyPolicy, calls: seq<Call>, t: nat)
    requires ClockSafe(p.windowSecs, Clock(calls))
    ensures Sum(InWindow(p, Tracked(p, calls), t)) <= p.capPerWindow
  {
    if calls != [] {
      var init, call := calls[..|calls| - 1], calls[|calls| - 1];
      assert calls == init + [call];
      SafePrefix(p.windowSecs, init, call);
      WindowUnderCap(p, init, t);
      WindowStep(p, init, call, t);
    }
  }

  /** In particular with a clock that never goes back, when the tracker is the reference. */
  lemma MonotoneWindow(p: KeyPolicy, calls: seq<Call>, t: nat)
    requires Monotone(calls)
    ensures Sum(InWindow(p, Tracked(p, calls), t)) <= p.capPerWindow
    ensures Tracked(p, calls) == RunHistory(p, calls).0
  {
    MonotoneIsSafe(p.windowSecs, calls);
    WindowUnderCap(p, calls, t);
    TrackerMatchesHistory(p, calls);
    TakenIsHistory(p, calls);
  }

  // --- every other clock fails ---

  /** Spend the whole cap at readings `k` and `j`, and only ask at all the others. */
  function TrapCall(clock: seq<u64>, k: nat, j: nat, cap: u128, x: nat): Call
    requires x < |clock|
  {
    if x == k || x == j then TrySpend(clock[x], cap) else Query(clock[x])
  }

  function TrapCalls(clock: seq<u64>, k: nat, j: nat, cap: u128, n: nat): (c: seq<Call>)
    requires n <= |clock|
    ensures |c| == n
  {
    seq(n, x requires 0 <= x < n => TrapCall(clock, k, j, cap, x))
  }

  /** The queue and the spends taken after `n` of these calls. */
  ghost predicate Trapped(p: KeyPolicy, clock: seq<u64>, k: nat, i: nat, j: nat, n: nat)
    requires k < i < j < |clock| && n <= |clock|
  {
    var cap := p.capPerWindow;
    var calls, a, b := TrapCalls(clock, k, j, cap, n), Spend(clock[k], cap), Spend(clock[j], cap);
    var queue := RunQueue(p, calls).0;
    && Tracked(p, calls) == (if n <= k then [] else if n <= j then [a] else [a, b])
    && (n <= k || i < n <= j ==> queue == []) && (k < n <= i ==> queue == [a] || queue == [])
  }

  lemma QueryStep(p: KeyPolicy, queue: Spends, now: u64)
    ensures QueueStep(p, queue, Query(now)) == (Evict(queue, Cutoff(p, now)), Admitted)
    ensures Evict([], Cutoff(p, now)) == []
    ensures |queue| == 1 ==> Evict(queue, Cutoff(p, now)) == if queue[0].at < Cutoff(p, now) then [] else queue
  {
    if |queue| == 1 {
      assert queue[1..] == [];
    }
  }

  lemma SpendAll(p: KeyPolicy, now: u64)
    requires p.expiryUnix == 0
    ensures QueueStep(p, [], TrySpend(now, p.capPerWindow)) == ([Spend(now, p.capPerWindow)], Admitted)
  {
    var none: Spends := [];
    assert Evict(none, Cutoff(p, now)) == none && Sum(none) == 0 && none + [Spend(now, p.capPerWindow)] == [Spend(now, p.capPerWindow)];
  }

  lemma NoCalls(p: KeyPolicy)
    ensures RunQueue(p, []).0 == [] && Tracked(p, []) == []
  {
  }

  lemma TrapSnoc(clock: seq<u64>, k: nat, j: nat, cap: u128, m: nat)
    requires m < |clock|
    ensures TrapCalls(clock, k, j, cap, m + 1) == TrapCalls(clock, k, j, cap, m) + [TrapCall(clock, k, j, cap, m)]
  {
  }

  lemma TrapNext(p: KeyPolicy, clock: seq<u64>, k: nat, i: nat, j: nat, m: nat)
    requires Trap(p.windowSecs, clock, k, i, j) && m < |clock| && p.expiryUnix == 0
    requires Trapped(p, clock, k, i, j, m)
    ensures Trapped(p, clock, k, i, j, m + 1)
  {
    hide RunQueue, Evict, QueueStep, Tracked, TrapCalls;
    var cap := p.capPerWindow;
    var calls, call := TrapCalls(clock, k, j, cap, m), TrapCall(clock, k, j, cap, m);
    var s, queue := Tracked(p, calls), RunQueue(p, calls).0;
    TrapSnoc(clock, k, j, cap, m);
    TrackedSnoc(p, calls, call);
    RunQueueSnoc(p, calls, call);
    if m == k {
      SpendAll(p, clock[m]);
      assert s + [Spend(clock[k], cap)] == [Spend(clock[k], cap)];
    } else if m == j {
      SpendAll(p, clock[m]);
      assert s + [Spend(clock[j], cap)] == [Spend(clock[k], cap), Spend(clock[j], cap)];
    } else {
      QueryStep(p, queue, clock[m]);
      assert s + [] == s;
    }
  }

  lemma {:induction false} TrapSprings(p: KeyPolicy, clock: seq<u64>, k: nat, i: nat, j: nat, n: nat)
    requires Trap(p.windowSecs, clock, k, i, j) && n <= |clock| && p.expiryUnix == 0
    ensures Trapped(p, clock, k, i, j, n)
  {
    hide Trapped;
    if n == 0 {
      TrapStart(p, clock, k, i, j);
    } else {
      TrapSprings(p, clock, k, i, j, n - 1);
      TrapNext(p, clock, k, i, j, n - 1);
    }
  }

  lemma TrapStart(p: KeyPolicy, clock: seq<u64>, k: nat, i: nat, j: nat)
    requires k < i < j < |clock|
    ensures Trapped(p, clock, k, i, j, 0)
  {
    NoCalls(p);
    assert TrapCalls(clock, k, j, p.capPerWindow, 0) == [];
  }

  lemma TwoInWindow(p: KeyPolicy, a: Spend, b: Spend, t: nat)
    requires Cutoff(p, t) <= a.at <= t && Cutoff(p, t) <= b.at <= t
    ensures Sum(InWindow(p, [a, b], t)) == a.amount + b.amount
  {
    assert [a, b][..1] == [a] && [a][..0] == [];
    assert InWindow(p, [a], t) == [] + [a] == [a];
    assert InWindow(p, [a, b], t) == [a] + [b] == [a, b];
    assert Sum([a]) == a.amount;
  }

  /** A clock with a trap, under any policy with a positive cap, lets twice the cap through in one window. */
  lemma TrapBreaks(p: KeyPolicy, clock: seq<u64>, k: nat, i: nat, j: nat)
    requires Trap(p.windowSecs, clock, k, i, j) && p.capPerWindow > 0 && p.expiryUnix == 0
    ensures var calls := TrapCalls(clock, k, j, p.capPerWindow, |clock|);
            && Clock(calls) == clock && !WindowHolds(p, calls)
            && Sum(InWindow(p, Tracked(p, calls), if clock[k] <= clock[j] then clock[j] else clock[k])) == 2 * p.capPerWindow
  {
    var calls := TrapCalls(clock, k, j, p.capPerWindow, |clock|);
    TrapSprings(p, clock, k, i, j, |clock|);
    TwoInWindow(p, Spend(clock[k], p.capPerWindow), Spend(clock[j], p.capPerWindow), if clock[k] <= clock[j] then clock[j] else clock[k]);
  }

  /** The clocks under which every policy and every sequence of calls keeps its windows are exactly the safe ones. */
  lemma SafeClocksExactly(w: u64, clock: seq<u64>)
    ensures ClockSafe(w, clock) <==>
            forall p: KeyPolicy, calls :: p.windowSecs == w && Clock(calls) == clock ==> WindowHolds(p, calls)
  {
    if ClockSafe(w, clock) {
      forall p: KeyPolicy, calls | p.windowSecs == w && Clock(calls) == clock
        ensures WindowHolds(p, calls)
      {
        forall t: nat
          ensures Sum(InWindow(p, Tracked(p, calls), t)) <= p.capPerWindow
        {
          WindowUnderCap(p, calls, t);
        }
      }
    } else {
      var k: nat, i: nat, j: nat :| Trap(w, clock, k, i, j);
      var p := KeyPolicy(Zeros(32), Zeros(32), 1, w, [], [], 0, 0);
      TrapBreaks(p, clock, k, i, j);
    }
  }

  /** The least surprising case: spend at 0, look at 11, and spend again at 5, with a window of 10. */
  lemma ClockMustNotGoBack(p: KeyPolicy)
    requires p.capPerWindow == 100 && p.windowSecs == 10 && p.expiryUnix == 0
    ensures Sum(InWindow(p, Tracked(p, TrapCalls([0, 11, 5], 0, 2, 100, 3)), 5)) == 200
  {
    assert Trap(10, [0, 11, 5], 0, 1, 2);
    TrapBreaks(p, [0, 11, 5], 0, 1, 2);
  }

  lemma RunQueueSnoc(p: KeyPolicy, calls: seq<Call>, call: Call)
    ensures RunQueue(p, calls + [call])
         == (QueueStep(p, RunQueue(p, calls).0, call).0, RunQueue(p, calls).1 + [QueueStep(p, RunQueue(p, calls).0, call).1])
  {
    assert (calls + [call])[..|calls|] == calls;
  }

  // ----- the tracker as an object -----

  class SpendingTracker {
    const policy: KeyPolicy
    var spends: Spends

    constructor (policy: KeyPolicy)
      ensures this.policy == policy && spends == []
    {
      this.policy, spends := policy, [];
    }

    method EvictExpired(now: u64)
      modifies this
      ensures spends == Evict(old(spends), Cutoff(policy, now))
    {
      var cutoff := if now < policy.windowSecs then 0 else now - policy.windowSecs;
      while spends != [] && spends[0].at < cutoff
        invariant Evict(spends, cutoff) == Evict(old(spends), cutoff)
        decreases |spends|
      {
        spends := spends[1..];
      }
    }

    method CurrentWindowTotal(now: u64) returns (total: u128)
      modifies this
      ensures spends == QueueStep(policy, old(spends), Query(now)).0
      ensures total == Saturated(Sum(spends))
    {
      EvictExpired(now);
      total := 0;
      for i := 0 to |spends|
        invariant spends == Evict(old(spends), Cutoff(policy, now))
        invariant total == Saturated(Sum(spends[..i]))
      {
        var next: int := total + spends[i].amount;
        TakeNext(spends, i);
        assert spends[..i + 1][..i] == spends[..i];
        total := if next > U128_MAX then U128_MAX else next;
      }
      assert spends[..|spends|] == spends;
    }

    method Try(now: u64, amount: u128) returns (v: Verdict)
      modifies this
      ensures (spends, v) == QueueStep(policy, old(spends), TrySpend(now, amount))
    {
      if policy.expiryUnix != 0 && now >= policy.expiryUnix {
        return PolicyExpired;
      }
      var current := CurrentWindowTotal(now);
      var wouldSpend: int := current + amount;
      if wouldSpend > U128_MAX {
        return Overspend(U128_MAX);
      }
      if wouldSpend > policy.capPerWindow {
        return Overspend(wouldSpend);
      }
      spends := spends + [Spend(now, amount)];
      v := Admitted;
    }

    method AdmitCall(now: u64, contract: Bytes, counterparty: PublicKey, amount: u128) returns (v: Verdict)
      modifies this
      ensures (spends, v) == QueueStep(policy, old(spends), Admit(now, contract, counterparty, amount))
    {
      if !AllowsContract(policy, contract) {
        return ContractDisallowed;
      }
      if !AllowsCounterparty(policy, counterparty) {
        return CounterpartyDisallowed;
      }
      v := Try(now, amount);
    }
  }
}
