/**
 The router's four counters under every interleaving of requests. Each `fetch_add` is one atomic step; a
 contract refusal does two of them, so other requests may run in between. Counters are unbounded here.
 */
module Metrics {

  datatype Stage =
    | Working            // counted as a request, outcome open
    | ContractPending    // `rejected` incremented, `contract_rejected` not yet
    | ContractRejected
    | OtherRejected
    | Accepted
    | Aborted            // unknown game or bundle, directory or internal error: no further counter

  datatype State = State(
    requests: nat, accepted: nat, rejected: nat, contractRejected: nat,
    stages: map<nat, Stage>)

  datatype Step =
    | Receive(id: nat)
    | RejectContract(id: nat)
    | CountContract(id: nat)
    | RejectOther(id: nat)
    | Accept(id: nat)
    | Abort(id: nat)

  const INIT := State(0, 0, 0, 0, map[])

  predicate Enabled(s: State, step: Step) {
    match step
    case Receive(id) => id !in s.stages
    case CountContract(id) => id in s.stages && s.stages[id] == ContractPending
    case _ => step.id in s.stages && s.stages[step.id] == Working
  }

  function Target(step: Step): Stage {
    match step
    case Receive(_) => Working
    case RejectContract(_) => ContractPending
    case CountContract(_) => ContractRejected
    case RejectOther(_) => OtherRejected
    case Accept(_) => Accepted
    case Abort(_) => Aborted
  }

  function Apply(s: State, step: Step): State
    requires Enabled(s, step)
  {
    var s' := s.(stages := s.stages[step.id := Target(step)]);
    match step
    case Receive(_) => s'.(requests := s.requests + 1)
    case RejectContract(_) => s'.(rejected := s.rejected + 1)
    case CountContract(_) => s'.(contractRejected := s.contractRejected + 1)
    case RejectOther(_) => s'.(rejected := s.rejected + 1)
    case Accept(_) => s'.(accepted := s.accepted + 1)
    case Abort(_) => s'
  }

  ghost predicate Runnable(s: State, st: seq<Step>)
    decreases |st|
  {
    st != [] ==> Enabled(s, st[0]) && Runnable(Apply(s, st[0]), st[1..])
  }

  ghost function Run(s: State, st: seq<Step>): State
    requires Runnable(s, st)
    decreases |st|
  {
    if st == [] then s else Run(Apply(s, st[0]), st[1..])
  }

  /** The requests standing at a stage. */
  function Ids(stages: map<nat, Stage>, k: Stage): set<nat> {
    set id | id in stages && stages[id] == k
  }

  function Count(s: State, k: Stage): nat {
    |Ids(s.stages, k)|
  }

  lemma MoveCounts(stages: map<nat, Stage>, id: nat, to: Stage, k: Stage)
    ensures |Ids(stages[id := to], k)|
            == |Ids(stages, k)|
               + (if k == to && !(id in stages && stages[id] == k) then 1 else 0)
               - (if k != to && id in stages && stages[id] == k then 1 else 0)
  {
    var before, after := Ids(stages, k), Ids(stages[id := to], k);
    if k == to {
      assert after == before + {id};
    } else {
      assert after == before - {id};
    }
  }

  ghost predicate Tallied(s: State) {
    && s.requests == Count(s, Working) + Count(s, ContractPending) + Count(s, ContractRejected)
                     + Count(s, OtherRejected) + Count(s, Accepted) + Count(s, Aborted)
    && s.accepted == Count(s, Accepted)
    && s.rejected == Count(s, ContractPending) + Count(s, ContractRejected) + Count(s, OtherRejected)
    && s.contractRejected == Count(s, ContractRejected)
  }

  lemma TalliedStep(s: State, step: Step)
    requires Tallied(s) && Enabled(s, step)
    ensures Tallied(Apply(s, step))
  {
    forall k
      ensures |Ids(s.stages[step.id := Target(step)], k)|
              == |Ids(s.stages, k)|
                 + (if k == Target(step) && !(step.id in s.stages && s.stages[step.id] == k) then 1 else 0)
                 - (if k != Target(step) && step.id in s.stages && s.stages[step.id] == k then 1 else 0)
    {
      MoveCounts(s.stages, step.id, Target(step), k);
    }
    assert Apply(s, step).stages == s.stages[step.id := Target(step)];
  }

  lemma {:induction false} TalliedRun(s: State, st: seq<Step>)
    requires Tallied(s) && Runnable(s, st)
    ensures Tallied(Run(s, st))
    decreases |st|
  {
    if st != [] {
      TalliedStep(s, st[0]);
      TalliedRun(Apply(s, st[0]), st[1..]);
    }
  }

  lemma InitTallied()
    ensures Tallied(INIT)
  {
    assert forall k :: Ids(INIT.stages, k) == {};
  }

  /** How the four numbers add up. */
  ghost predicate Conserved(s: State) {
    && s.requests == s.accepted + s.rejected + Count(s, Working) + Count(s, Aborted)
    && s.contractRejected <= s.rejected <= s.requests
    && s.rejected == s.contractRejected + Count(s, OtherRejected) + Count(s, ContractPending)
  }

  /**
   Counter conservation: in every state reachable by any interleaving, requests are accepted, rejected, in
   flight or aborted, and contract refusals <= refusals <= requests.
   */
  lemma CountersConserved(st: seq<Step>)
    requires Runnable(INIT, st)
    ensures Conserved(Run(INIT, st))
  {
    InitTallied();
    TalliedRun(INIT, st);
    TalliedConserved(Run(INIT, st));
  }

  lemma TalliedConserved(s: State)
    requires Tallied(s)
    ensures Conserved(s)
  {
  }

  /** How many steps of the run are of a kind. */
  function Steps(st: seq<Step>, kind: Step -> bool): nat {
    if st == [] then 0 else (if kind(st[0]) then 1 else 0) + Steps(st[1..], kind)
  }

  /**
   Each counter is the number of its events: requests received, accepted, refused for either reason. Every
   contract refusal reaches the contract counter, except those whose second increment is still to come.
   */
  lemma {:induction false} CountersCountSteps(s: State, st: seq<Step>)
    requires Runnable(s, st)
    ensures var e := Run(s, st);
            && e.requests == s.requests + Steps(st, (x: Step) => x.Receive?)
            && e.accepted == s.accepted + Steps(st, (x: Step) => x.Accept?)
            && e.rejected == s.rejected + Steps(st, (x: Step) => x.RejectContract?)
                             + Steps(st, (x: Step) => x.RejectOther?)
            && e.contractRejected + Count(e, ContractPending)
               == s.contractRejected + Count(s, ContractPending) + Steps(st, (x: Step) => x.RejectContract?)
    decreases |st|
  {
    if st != [] {
      MoveCounts(s.stages, st[0].id, Target(st[0]), ContractPending);
      CountersCountSteps(Apply(s, st[0]), st[1..]);
    }
  }

  /** Increments of `accepted` or `rejected` on behalf of a request. */
  function Verdicts(st: seq<Step>, id: nat): nat {
    if st == [] then 0
    else (if st[0].id == id && (st[0].Accept? || st[0].RejectOther? || st[0].RejectContract?) then 1 else 0)
         + Verdicts(st[1..], id)
  }

  /** From any state, a request adds at most once to `accepted` and `rejected` together. */
  lemma {:induction false} OneVerdict(s: State, st: seq<Step>, id: nat)
    requires Runnable(s, st)
    ensures Verdicts(st, id) <= 1
    ensures id in s.stages && s.stages[id] != Working ==> Verdicts(st, id) == 0
    decreases |st|
  {
    if st != [] {
      OneVerdict(Apply(s, st[0]), st[1..], id);
    }
  }
}
