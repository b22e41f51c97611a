/**
 The response built from a claim. It names the shard found in the router's whole snapshot under the returned
 placement's shard id, eligible or not, and the router's own pick when the snapshot has none.
 */
module Response {
  import opened Prelude
  import opened Scheduler
  import opened ClaimProtocol
  import opened ClaimLinearizability

  /** The shard named in the response: looked up in the whole snapshot, else the own pick. */
  function ResponseShard(plan: Plan, placement: Placement): ShardRow {
    var found := FindById(plan.shards, placement.shardId);
    if found.Some? then found.value else plan.picked
  }

  ghost predicate UniqueIds(shards: seq<ShardRow>) {
    forall a, b :: a in shards && b in shards && a.shardId == b.shardId ==> a == b
  }

  /** The router's own pick passed every gate at its decision time. */
  lemma PickPassedGates(s: State, id: nat)
    requires Coherent(s) && id in s.requests && HasPlan(s.requests[id].phase)
    ensures var r := s.requests[id];
            r.phase.plan.picked in r.phase.plan.shards
            && IsEligible(r.phase.plan.picked, r.required, r.phase.plan.decidedAt)
  {
    var r := s.requests[id];
    assert RequestCoherent(r);
    PlacedShardPassesGates(r.phase.plan.shards, r.required, r.phase.plan.decidedAt, ActiveShard(r.phase.plan.existing));
  }

  // ----- the shard it names -------------------------------------------------------------------

  /**
   The response names the shard of the placement the claim returned exactly when the router's own snapshot
   lists that shard; otherwise it hands out its own pick with another router's generation.
   */
  lemma ResponseMatchesPlacement(s: State, id: nat)
    requires Coherent(s) && id in s.requests && s.requests[id].phase.Placed?
    ensures var p := s.requests[id].phase;
            ResponseShard(p.plan, p.placement).shardId == p.placement.shardId
            <==> exists row :: row in p.plan.shards && row.shardId == p.placement.shardId
  {
    var r := s.requests[id];
    var plan := r.phase.plan;
    assert RequestCoherent(r);
    PlacedShardPassesGates(plan.shards, r.required, plan.decidedAt, ActiveShard(plan.existing));
    FindByIdFirst(plan.shards, r.phase.placement.shardId);
  }

  /**
   When a claim completes, the directory holds a row of the shard the response names exactly when the
   completing step was not a second SET over a missing row and the router's snapshot lists the returned shard.
   */
  lemma ResponseMatchesDirectory(tr: seq<State>, st: seq<Step>, id: nat, i: nat, j: nat)
    requires IsRun(tr, st) && Coherent(tr[0]) && i < j < |st|
    requires st[i] == Read(id) && id in tr[i].requests
    requires id in tr[j].requests && !tr[j].requests[id].phase.Placed?
    requires id in tr[j + 1].requests && tr[j + 1].requests[id].phase.Placed?
    ensures var game, p := tr[i].requests[id].gameId, tr[j + 1].requests[id].phase;
            (game in tr[j + 1].rows && tr[j + 1].rows[game].shardId == ResponseShard(p.plan, p.placement).shardId)
            <==> !(st[j] == SecondSet(id, true) && game !in tr[j].rows)
                 && exists row :: row in p.plan.shards && row.shardId == p.placement.shardId
  {
    var game := tr[i].requests[id].gameId;
    UnheldPlacementNeedsDelete(tr, st, id, i, j);
    CoherentRun(tr, st, j + 1);
    ResponseMatchesPlacement(tr[j + 1], id);
    RequestStays(tr, st, id, i, j);
    assert Next(tr[j], st[j], tr[j + 1]);
  }

  // ----- the gates it meets -------------------------------------------------------------------

  /** Every row the snapshot has of the shard meets the gate. */
  ghost predicate ListedRowsMeet(shards: seq<ShardRow>, shardId: string, gate: ShardRow -> bool) {
    forall row :: row in shards && row.shardId == shardId ==> gate(row)
  }

  /** For any gate the own pick meets: the response meets it exactly when every listed row of the shard does. */
  lemma ResponseMeetsExactly(plan: Plan, placement: Placement, gate: ShardRow -> bool)
    requires plan.picked in plan.shards && gate(plan.picked) && UniqueIds(plan.shards)
    ensures gate(ResponseShard(plan, placement)) <==> ListedRowsMeet(plan.shards, placement.shardId, gate)
    ensures placement.shardId == plan.picked.shardId ==> ResponseShard(plan, placement) == plan.picked
  {
    FindByIdFirst(plan.shards, placement.shardId);
  }

  function ContractGate(required: nat): ShardRow -> bool {
    s => InRange(s, required)
  }

  function AllGates(required: nat, now: nat): ShardRow -> bool {
    s => IsEligible(s, required, now)
  }

  /**
   The contract in the response, exactly: with one row per shard id, the named shard supports the required
   contract precisely when every snapshot row of the returned placement's shard does. It always does when the
   claim got the shard it asked for. The same holds for the conjunction of all gates.
   */
  lemma ResponseInContract(s: State, id: nat)
    requires Coherent(s) && id in s.requests && s.requests[id].phase.Placed?
    requires UniqueIds(s.requests[id].phase.plan.shards)
    ensures var r, p := s.requests[id], s.requests[id].phase;
            && (InRange(ResponseShard(p.plan, p.placement), r.required)
                <==> ListedRowsMeet(p.plan.shards, p.placement.shardId, ContractGate(r.required)))
            && (IsEligible(ResponseShard(p.plan, p.placement), r.required, p.plan.decidedAt)
                <==> ListedRowsMeet(p.plan.shards, p.placement.shardId, AllGates(r.required, p.plan.decidedAt)))
            && (p.placement.shardId == p.draft.shardId ==>
                  IsEligible(ResponseShard(p.plan, p.placement), r.required, p.plan.decidedAt))
  {
    var r, p := s.requests[id], s.requests[id].phase;
    PickPassedGates(s, id);
    assert RequestCoherent(r);
    assert ContractGate(r.required)(p.plan.picked) && AllGates(r.required, p.plan.decidedAt)(p.plan.picked);
    ResponseMeetsExactly(p.plan, p.placement, ContractGate(r.required));
    ResponseMeetsExactly(p.plan, p.placement, AllGates(r.required, p.plan.decidedAt));
  }

  /** The claim of request `id` completes at step `j`. */
  predicate Completes(tr: seq<State>, id: nat, j: nat)
    requires j + 1 < |tr|
  {
    && id in tr[j].requests && !tr[j].requests[id].phase.Placed?
    && id in tr[j + 1].requests && tr[j + 1].requests[id].phase.Placed?
  }

  /**
   The claim is about to read back, having found no row at first, and another shard's row is stored for which
   the snapshot has a row that fails the gate.
   */
  ghost predicate LosesToFailing(s: State, step: Step, id: nat, gate: ShardRow -> bool) {
    && step == Reread(id) && Enabled(s, step)
    && var r := s.requests[id];
       && r.phase.plan.existing.None? && r.gameId in s.rows
       && s.rows[r.gameId].shardId != r.phase.plan.picked.shardId
       && !ListedRowsMeet(r.phase.plan.shards, s.rows[r.gameId].shardId, gate)
  }

  /** What a completing step returns: the draft, or a row read back. */
  lemma CompletionReturns(s: State, step: Step, id: nat)
    requires Coherent(s) && Enabled(s, step) && id in s.requests && !s.requests[id].phase.Placed?
    requires Apply(s, step).requests[id].phase.Placed?
    ensures HasDraft(s.requests[id].phase)
    ensures var r, p := s.requests[id], Apply(s, step).requests[id].phase;
            && p.plan == r.phase.plan && p.draft == r.phase.draft
            && (p.placement.shardId == p.plan.picked.shardId
                || (step == Reread(id) && p.plan.existing.None? && Lookup(s, r.gameId) == Some(p.placement)))
            && (step == Reread(id) ==> Lookup(s, r.gameId) == Some(p.placement))
  {
    assert RequestCoherent(s.requests[id]);
  }

  lemma StepResponseExactly(s: State, step: Step, id: nat, gate: ShardRow -> bool)
    requires Coherent(s) && Enabled(s, step) && id in s.requests && !s.requests[id].phase.Placed?
    requires Apply(s, step).requests[id].phase.Placed?
    requires var plan := Apply(s, step).requests[id].phase.plan; UniqueIds(plan.shards) && gate(plan.picked)
    ensures var p := Apply(s, step).requests[id].phase;
            !gate(ResponseShard(p.plan, p.placement)) <==> LosesToFailing(s, step, id, gate)
  {
    CompletionReturns(s, step, id);
    PickPassedGates(s, id);
    var p := Apply(s, step).requests[id].phase;
    ResponseMeetsExactly(p.plan, p.placement, gate);
  }

  /**
   Which responses break the gates, exactly, over every run: with one row per shard id in the router's
   snapshot, a completing claim answers with a shard that does not support the contract precisely when it
   read no row at first, lost the cold race, and reads back the row of another shard that its own snapshot
   lists outside the contract. The same holds for the gates together, so a draining, stale or full shard is
   named by the same path and by no other.
   */
  lemma ResponseOutsideGatesExactly(tr: seq<State>, st: seq<Step>, id: nat, j: nat)
    requires IsRun(tr, st) && tr[0] == INIT && j < |st| && Completes(tr, id, j)
    requires UniqueIds(tr[j + 1].requests[id].phase.plan.shards)
    ensures var r, p := tr[j + 1].requests[id], tr[j + 1].requests[id].phase;
            && (!InRange(ResponseShard(p.plan, p.placement), r.required)
                <==> LosesToFailing(tr[j], st[j], id, ContractGate(r.required)))
            && (!IsEligible(ResponseShard(p.plan, p.placement), r.required, p.plan.decidedAt)
                <==> LosesToFailing(tr[j], st[j], id, AllGates(r.required, p.plan.decidedAt)))
  {
    var r, p := tr[j + 1].requests[id], tr[j + 1].requests[id].phase;
    CoherentRun(tr, st, j);
    CoherentRun(tr, st, j + 1);
    assert Next(tr[j], st[j], tr[j + 1]);
    PickPassedGates(tr[j + 1], id);
    assert ContractGate(r.required)(p.plan.picked) && AllGates(r.required, p.plan.decidedAt)(p.plan.picked);
    StepResponseExactly(tr[j], st[j], id, ContractGate(r.required));
    StepResponseExactly(tr[j], st[j], id, AllGates(r.required, p.plan.decidedAt));
  }
}
