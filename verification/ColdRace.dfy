/**
 The cold race: no row for the game and no claim in flight. As long as nothing deletes the row and every
 router that reads a row finds its shard eligible, one writer wins and everyone agrees with it.
 */
module ColdRace {
  import opened Prelude
  import opened Scheduler
  import opened ClaimProtocol

  /** The part of a row the race is about. */
  function Fence(row: Placement): (string, nat) {
    (row.shardId, row.generation)
  }

  ghost predicate ColdStart(s: State, game: string) {
    && game !in s.rows
    && Coherent(s)
    && forall id :: Mine(s, id, game) ==> Terminal(s.requests[id].phase)
  }

  /** Every request for the game that read a row finds the row's shard eligible in its snapshot. */
  ghost predicate ReadersStaySticky(tr: seq<State>, st: seq<Step>, game: string)
    requires |tr| == |st| + 1
  {
    forall i {:trigger st[i]} ::
      0 <= i < |st| && st[i].Choose? && Mine(tr[i], st[i].id, game) && tr[i].requests[st[i].id].phase.Looked?
      && tr[i].requests[st[i].id].phase.seen.Some?
      ==> ShardEligible(st[i].shards, tr[i].requests[st[i].id].required, st[i].now,
                        tr[i].requests[st[i].id].phase.seen.value.shardId)
  }

  ghost predicate ShardEligible(shards: seq<ShardRow>, required: nat, now: nat, shardId: string) {
    exists s :: s in shards && s.shardId == shardId && IsEligible(s, required, now)
  }

  /** Number of `NX` writes that took effect for the game in the first `m` steps. */
  ghost function NxWins(tr: seq<State>, st: seq<Step>, game: string, m: nat): nat
    requires IsRun(tr, st) && m <= |st|
  {
    if m == 0 then 0
    else
      NxWins(tr, st, game, m - 1)
      + if IsNxWin(tr[m - 1], st[m - 1], game) then 1 else 0
  }

  ghost predicate IsNxWin(s: State, step: Step, game: string) {
    && step.FirstSet? && Enabled(s, step) && Writes(s, step, game)
    && !IsRefresh(s.requests[step.id].phase.plan)
  }

  /** Where a request that arrived in the segment can be, given the row `row`. */
  ghost predicate Agrees(p: Phase, row: Option<Placement>) {
    && !p.Superseding?
    && (p.Looked? || HasPlan(p) ==> FirstRead(p).Some? ==> row.Some? && Fence(FirstRead(p).value) == Fence(row.value))
    && (HasPlan(p) && p.plan.existing.Some? ==> IsRefresh(p.plan))
    && (p.Refetching? ==> row.Some? && p.plan.existing.None?)
    && (p.Placed? ==> row.Some? && Fence(p.placement) == Fence(row.value))
  }

  ghost predicate ColdInv(s: State, game: string, before: set<nat>) {
    && Coherent(s)
    && (forall id :: id in before && Mine(s, id, game) ==> Terminal(s.requests[id].phase))
    && (forall id :: Mine(s, id, game) && id !in before ==> Agrees(s.requests[id].phase, Lookup(s, game)))
  }

  /** A write keeps the fence of a present row, and only an `NX` creates one. */
  lemma ColdRowStep(s: State, step: Step, game: string, before: set<nat>)
    requires ColdInv(s, game, before) && Enabled(s, step) && step != Delete(game)
    ensures game in s.rows ==>
              game in Apply(s, step).rows && Fence(Apply(s, step).rows[game]) == Fence(s.rows[game])
    ensures IsNxWin(s, step, game) <==> game !in s.rows && game in Apply(s, step).rows
  {
    StepFrame(s, step);
    if (step.FirstSet? || step.SecondSet?) && Mine(s, step.id, game) {
      assert step.id !in before;
      assert Agrees(s.requests[step.id].phase, Lookup(s, game));
      assert RequestCoherent(s.requests[step.id]);
    }
  }

  /** The step of a request itself keeps it in agreement. */
  lemma OwnStepAgrees(s: State, step: Step, game: string, before: set<nat>)
    requires ColdInv(s, game, before) && Enabled(s, step)
    requires !step.Arrive? && !step.Delete? && !step.Tick? && Mine(s, step.id, game)
    requires step.Choose? && s.requests[step.id].phase.seen.Some? ==>
               ShardEligible(step.shards, s.requests[step.id].required, step.now,
                             s.requests[step.id].phase.seen.value.shardId)
    ensures Agrees(Apply(s, step).requests[step.id].phase, Lookup(Apply(s, step), game))
  {
    var r := s.requests[step.id];
    assert step.id !in before;
    assert Agrees(r.phase, Lookup(s, game)) && RequestCoherent(r);
    if step.Choose? && r.phase.seen.Some? {
      var d := Decide(step.shards, r.required, step.now, ActiveShard(r.phase.seen));
      if d.Place? {
        StickyExactly(step.shards, r.required, step.now, r.phase.seen.value.shardId);
      }
    }
  }

  lemma ColdStep(s: State, step: Step, game: string, before: set<nat>)
    requires ColdInv(s, game, before) && Enabled(s, step) && step != Delete(game) && before <= s.requests.Keys
    requires step.Choose? && Mine(s, step.id, game) && s.requests[step.id].phase.seen.Some? ==>
               ShardEligible(step.shards, s.requests[step.id].required, step.now,
                             s.requests[step.id].phase.seen.value.shardId)
    ensures ColdInv(Apply(s, step), game, before)
  {
    var s' := Apply(s, step);
    CoherentStep(s, step);
    StepFrame(s, step);
    ColdRowStep(s, step, game, before);
    forall id | Mine(s', id, game) && id !in before
      ensures Agrees(s'.requests[id].phase, Lookup(s', game))
    {
      if id in s.requests && s'.requests[id] == s.requests[id] {
        assert Agrees(s.requests[id].phase, Lookup(s, game));
      } else if id in s.requests {
        OwnStepAgrees(s, step, game, before);
      }
    }
  }

  lemma {:induction false} ColdInvHolds(tr: seq<State>, st: seq<Step>, game: string, m: nat)
    requires IsRun(tr, st) && ColdStart(tr[0], game) && NoDelete(st, game, 0, |st|) && ReadersStaySticky(tr, st, game)
    requires m <= |st|
    ensures ColdInv(tr[m], game, tr[0].requests.Keys) && tr[0].requests.Keys <= tr[m].requests.Keys
    ensures NxWins(tr, st, game, m) == if game in tr[m].rows then 1 else 0
  {
    if m > 0 {
      ColdInvHolds(tr, st, game, m - 1);
      assert Next(tr[m - 1], st[m - 1], tr[m]);
      StepFrame(tr[m - 1], st[m - 1]);
      ColdRowStep(tr[m - 1], st[m - 1], game, tr[0].requests.Keys);
      ColdStep(tr[m - 1], st[m - 1], game, tr[0].requests.Keys);
    }
  }

  lemma {:induction false} FenceNeverMoves(tr: seq<State>, st: seq<Step>, game: string, m: nat, n: nat)
    requires IsRun(tr, st) && ColdStart(tr[0], game) && NoDelete(st, game, 0, |st|) && ReadersStaySticky(tr, st, game)
    requires m <= n <= |st| && game in tr[m].rows
    ensures game in tr[n].rows && Fence(tr[n].rows[game]) == Fence(tr[m].rows[game])
    decreases n
  {
    if m < n {
      FenceNeverMoves(tr, st, game, m, n - 1);
      ColdInvHolds(tr, st, game, n - 1);
      assert Next(tr[n - 1], st[n - 1], tr[n]);
      ColdRowStep(tr[n - 1], st[n - 1], game, tr[0].requests.Keys);
    }
  }

  /**
   Cold-race agreement: over any such segment, with any number of routers and no assumption on their
   clocks, at most one `NX` succeeds (exactly one as soon as any claim completes), every claim that
   completes returns the winner's shard and generation, and the stored row never changes either.
   */
  lemma ColdRaceAgreement(tr: seq<State>, st: seq<Step>, game: string) returns (winner: (string, nat))
    requires IsRun(tr, st) && ColdStart(tr[0], game) && NoDelete(st, game, 0, |st|) && ReadersStaySticky(tr, st, game)
    ensures NxWins(tr, st, game, |st|) <= 1
    ensures forall m :: 0 <= m <= |st| && game in tr[m].rows ==> Fence(tr[m].rows[game]) == winner
    ensures forall m, id :: 0 <= m <= |st| && Mine(tr[m], id, game) && id !in tr[0].requests
                            && tr[m].requests[id].phase.Placed? ==>
              && Fence(tr[m].requests[id].phase.placement) == winner
              && NxWins(tr, st, game, m) == 1
  {
    var last := tr[|st|];
    winner := if game in last.rows then Fence(last.rows[game]) else ("", 0);
    ColdInvHolds(tr, st, game, |st|);
    forall m | 0 <= m <= |st| && game in tr[m].rows
      ensures Fence(tr[m].rows[game]) == winner
    {
      FenceNeverMoves(tr, st, game, m, |st|);
    }
    forall m, id | 0 <= m <= |st| && Mine(tr[m], id, game) && id !in tr[0].requests
                   && tr[m].requests[id].phase.Placed?
      ensures Fence(tr[m].requests[id].phase.placement) == winner && NxWins(tr, st, game, m) == 1
    {
      ColdInvHolds(tr, st, game, m);
    }
  }
}
