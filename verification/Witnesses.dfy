/**
 Families of runs that show what the protocol does not promise: each lemma builds, for every choice of
 its parameters, a run from the empty directory with a shared clock in which a plausible claim fails.
 */
module Witnesses {
  import opened Prelude
  import opened Scheduler
  import opened ClaimProtocol
  import opened Response

  /** A run under construction. */
  datatype Prefix = Prefix(tr: seq<State>, st: seq<Step>)

  ghost predicate Good(p: Prefix) {
    IsRun(p.tr, p.st) && SharedClock(p.tr, p.st) && p.tr[0] == INIT
  }

  function End(p: Prefix): State
    requires p.tr != []
  {
    Last(p.tr)
  }

  lemma Extend(p: Prefix, step: Step) returns (q: Prefix)
    requires Good(p) && Enabled(End(p), step)
    requires step.Choose? || step.Draft? ==> step.now == End(p).clock
    ensures Good(q) && q.st == p.st + [step] && q.tr == p.tr + [Apply(End(p), step)]
  {
    q := Prefix(p.tr + [Apply(End(p), step)], p.st + [step]);
    assert forall i {:trigger q.st[i]} :: 0 <= i < |p.st| ==>
        q.st[i] == p.st[i] && q.tr[i] == p.tr[i] && q.tr[i + 1] == p.tr[i + 1];
  }

  /** A row that passes every gate for contract 0. */
  function Healthy(shardId: string, now: nat): ShardRow {
    ShardRow(shardId, "", "healthy", true, true, 0, 0, 0, None, None, 0.0, 0, now, None)
  }

  lemma OnlyHealthyIsPicked(shardId: string, now: nat, active: Option<string>)
    ensures Decide([Healthy(shardId, now)], 0, now, active) == Place(Healthy(shardId, now))
  {
    var row := Healthy(shardId, now);
    EligibleRowsMembers([row], 0, now);
    ContractRefusalExact([row], 0, now, active);
    PlacedShardPassesGates([row], 0, now, active);
    assert row in [row] && IsEligible(row, 0, now);
  }

  function PlanFor(s: State, game: string, shardId: string): Plan {
    Plan(Lookup(s, game), [Healthy(shardId, s.clock)], s.clock, Healthy(shardId, s.clock))
  }

  /** A new request arrives and reads the row. */
  lemma PrepareRead(p: Prefix, id: nat, game: string) returns (q: Prefix)
    requires Good(p) && id !in End(p).requests
    ensures Good(q) && |q.st| == |p.st| + 2 && p.tr <= q.tr && p.st <= q.st
    ensures End(q) == End(p).(requests := End(p).requests[id := Request(game, 0, Looked(Lookup(End(p), game)))])
    ensures forall k :: |p.st| <= k <= |q.st| ==> q.tr[k].rows == End(p).rows
  {
    q := Extend(p, Arrive(id, game, 0));
    q := Extend(q, Read(id));
  }

  /** It sees one healthy shard, drafts its row, and stands before its first SET. */
  lemma PrepareClaim(p: Prefix, id: nat, game: string, shardId: string) returns (q: Prefix)
    requires Good(p) && id !in End(p).requests
    ensures Good(q) && |q.st| == |p.st| + 4 && p.tr <= q.tr && p.st <= q.st
    ensures End(q).rows == End(p).rows && End(q).clock == End(p).clock
    ensures var plan := PlanFor(End(p), game, shardId);
            End(q).requests == End(p).requests[id := Request(game, 0, Claiming(plan, MakeDraft(game, plan, End(p).clock)))]
    ensures forall k :: |p.st| <= k <= |q.st| ==> q.tr[k].rows == End(p).rows
  {
    var now := End(p).clock;
    var looked := PrepareRead(p, id, game);
    OnlyHealthyIsPicked(shardId, now, ActiveShard(Lookup(End(p), game)));
    var chosen := Extend(looked, Choose(id, [Healthy(shardId, now)], now));
    q := Extend(chosen, Draft(id, now));
  }

  lemma Start(t: nat) returns (p: Prefix)
    ensures Good(p) && |p.st| == 1 && End(p) == State(map[], map[], t) && p.tr[0] == INIT
  {
    p := Extend(Prefix([INIT], []), Tick(t));
  }

  /** An uncontended first placement. */
  lemma StartPlaced(t: nat, game: string, shardId: string) returns (p: Prefix)
    ensures Good(p) && |p.st| == 6 && End(p).clock == t && End(p).requests.Keys == {0}
    ensures End(p).rows == map[game := MakeDraft(game, PlanFor(State(map[], map[], t), game, shardId), t)]
    ensures forall k :: 0 <= k < 6 ==> p.tr[k].rows == map[]
  {
    p := Start(t);
    var q := PrepareClaim(p, 0, game, shardId);
    assert q.tr[0] == p.tr[0] && q.tr[1] == p.tr[1];
    p := Extend(q, FirstSet(0, true));
  }

  /** A claim in the NX mode over a row of another shard takes it over. */
  lemma Supersede(p: Prefix, id: nat, game: string) returns (q: Prefix)
    requires Good(p) && Mine(End(p), id, game) && game in End(p).rows
    requires End(p).requests[id].phase.Claiming? && !IsRefresh(End(p).requests[id].phase.plan)
    requires End(p).requests[id].phase.plan.existing.Some?
    requires End(p).requests[id].phase.draft.shardId != End(p).rows[game].shardId
    ensures Good(q) && |q.st| == |p.st| + 3 && Last(q.st) == SecondSet(id, true)
    ensures q.tr[|p.st| + 2].rows == End(p).rows
    ensures End(q).rows == End(p).rows[game := End(p).requests[id].phase.draft]
    ensures End(q).clock == End(p).clock
    ensures End(q).requests.Keys == End(p).requests.Keys
    ensures forall other :: other in End(p).requests && other != id ==>
              End(q).requests[other] == End(p).requests[other]
  {
    q := Extend(p, FirstSet(id, true));
    q := Extend(q, Reread(id));
    q := Extend(q, SecondSet(id, true));
  }

  /** Request `id` stands before its first SET, having read `existing` and drafted a row. */
  predicate Standing(s: State, id: nat, game: string, existing: Option<Placement>, shardId: string, generation: nat) {
    && Mine(s, id, game) && s.requests[id].phase.Claiming?
    && s.requests[id].phase.plan.existing == existing
    && s.requests[id].phase.plan.picked.shardId == shardId
    && s.requests[id].phase.draft.shardId == shardId
    && s.requests[id].phase.draft.generation == generation
  }

  /** The directory holds this shard and generation for the game. */
  predicate Holds(s: State, game: string, shardId: string, generation: nat) {
    game in s.rows && s.rows[game].shardId == shardId && s.rows[game].generation == generation
  }

  /** A game placed on `c` at t1, and a second claim for `a` standing at the same time. */
  lemma PlacedAndStanding(game: string, a: string, c: string, t1: nat) returns (p: Prefix, row: Placement)
    ensures Good(p) && End(p).clock == t1 && End(p).requests.Keys == {0, 1}
    ensures End(p).rows == map[game := row] && row.shardId == c && row.generation == t1
    ensures Standing(End(p), 1, game, Some(row), a, t1)
  {
    p := StartPlaced(t1, game, c);
    row := End(p).rows[game];
    p := PrepareClaim(p, 1, game, a);
  }

  /** Then time passes, and a third claim, for `b`, stands at t2 over the same row. */
  lemma TwoStanding(game: string, a: string, b: string, c: string, t1: nat, t2: nat)
    returns (p: Prefix, row: Placement)
    requires t1 < t2 && b != c
    ensures Good(p) && End(p).clock == t2
    ensures End(p).rows == map[game := row] && row.shardId == c && row.generation == t1
    ensures Standing(End(p), 1, game, Some(row), a, t1) && Standing(End(p), 2, game, Some(row), b, t2)
  {
    p, row := PlacedAndStanding(game, a, c, t1);
    p := Extend(p, Tick(t2 - t1));
    p := PrepareClaim(p, 2, game, b);
  }

  /** The third claim takes the row over; the second still stands with what it read. */
  lemma TakenOver(game: string, a: string, b: string, c: string, t1: nat, t2: nat)
    returns (p: Prefix, row: Placement)
    requires t1 < t2 && b != c
    ensures Good(p) && Holds(End(p), game, b, t2)
    ensures row.shardId == c && Standing(End(p), 1, game, Some(row), a, t1)
  {
    p, row := TwoStanding(game, a, b, c, t1, t2);
    p := Supersede(p, 2, game);
  }

  /**
   A stale refresh: for any two shards and any times t1 < t2 there is a run whose last write puts the old
   shard and the old generation t1 back over a row of generation t2.
   */
  lemma StaleRefreshRegresses(game: string, a: string, b: string, t1: nat, t2: nat) returns (p: Prefix)
    requires a != b && t1 < t2
    ensures Good(p) && |p.st| > 0 && Last(p.st).FirstSet?
    ensures Holds(p.tr[|p.st| - 1], game, b, t2) && Holds(End(p), game, a, t1)
  {
    var q, row := TakenOver(game, a, b, a, t1, t2);
    p := Extend(q, FirstSet(1, true));
    assert p.tr[|p.st| - 1] == End(q);
  }

  /**
   Overlapping supersedes are last-writer-wins: for any three shards and times t1 < t2 the request that
   drafted first may write last, lowering the generation from t2 to t1.
   */
  lemma SupersedesRegress(game: string, a: string, b: string, c: string, t1: nat, t2: nat) returns (p: Prefix)
    requires a != b && b != c && a != c && t1 < t2
    ensures Good(p) && |p.st| > 0 && Last(p.st).SecondSet?
    ensures Holds(p.tr[|p.st| - 1], game, b, t2) && Holds(End(p), game, a, t1)
  {
    var q, row := TakenOver(game, a, b, c, t1, t2);
    p := Supersede(q, 1, game);
    assert p.tr[|p.st| - 1].rows == End(q).rows;
  }

  /** A cold race in which the later draft, for `b` at t2, is stored first. */
  lemma LaterDraftFirst(game: string, a: string, b: string, t1: nat, t2: nat) returns (p: Prefix)
    requires t1 < t2
    ensures Good(p) && Holds(End(p), game, b, t2) && Standing(End(p), 1, game, None, a, t1)
  {
    p := Start(t1);
    p := PrepareClaim(p, 1, game, a);
    p := Extend(p, Tick(t2 - t1));
    p := PrepareClaim(p, 2, game, b);
    p := Extend(p, FirstSet(2, true));
  }

  /**
   A deletion lets an older draft in: for any shards and times t1 < t2 there is a run in which generation t2
   is stored, the row is deleted, and a claim that read no row then stores generation t1. No write over a
   present row lowers anything, and the late author's first read still matches the directory.
   */
  lemma DeletionRegresses(game: string, a: string, b: string, t1: nat, t2: nat) returns (p: Prefix)
    requires t1 < t2
    ensures Good(p) && |p.st| > 2 && Last(p.st).FirstSet? && p.st[|p.st| - 2] == Delete(game)
    ensures Holds(p.tr[|p.st| - 2], game, b, t2) && Holds(End(p), game, a, t1)
    ensures var before, author := p.tr[|p.st| - 1], Last(p.st).id;
            game !in before.rows && Standing(before, author, game, None, a, t1)
  {
    var q := LaterDraftFirst(game, a, b, t1, t2);
    var q' := Extend(q, Delete(game));
    p := Extend(q', FirstSet(1, true));
    assert p.tr[|p.st| - 2] == End(q) && p.tr[|p.st| - 1] == End(q');
  }

  /** The directory never held a row for the game refreshed at `t`. */
  ghost predicate NeverRefreshedAt(tr: seq<State>, game: string, t: nat) {
    forall k :: 0 <= k < |tr| ==> game in tr[k].rows ==> tr[k].rows[game].refreshedAt != t
  }

  /** A game placed at t1, and a refresh of it standing at t2. */
  lemma RefreshStanding(game: string, a: string, t1: nat, t2: nat) returns (p: Prefix, row: Placement)
    requires t1 < t2
    ensures Good(p) && NeverRefreshedAt(p.tr, game, t2) && row.shardId == a
    ensures Standing(End(p), 1, game, Some(row), a, t1) && End(p).requests[1].phase.draft.refreshedAt == t2
  {
    var q := StartPlaced(t1, game, a);
    row := End(q).rows[game];
    assert NeverRefreshedAt(q.tr, game, t2);
    q := Extend(q, Tick(t2 - t1));
    p := PrepareClaim(q, 1, game, a);
    assert NeverRefreshedAt(p.tr, game, t2) by {
      assert forall k :: 0 <= k < |q.st| ==> p.tr[k] == q.tr[k];
    }
  }

  /** The row vanishes under a refresh, which then returns its draft without storing it. */
  lemma RowVanishes(p: Prefix, game: string, row: Placement) returns (q: Prefix)
    requires Good(p) && Mine(End(p), 1, game) && End(p).requests[1].phase.Claiming?
    requires End(p).requests[1].phase.plan.existing == Some(row) && IsRefresh(End(p).requests[1].phase.plan)
    ensures Good(q) && |q.tr| == |p.tr| + 4 && p.tr <= q.tr
    ensures 1 in End(q).requests && End(q).requests[1].phase.Placed?
    ensures End(q).requests[1].phase.plan == End(p).requests[1].phase.plan
    ensures End(q).requests[1].phase.placement == End(p).requests[1].phase.draft
    ensures forall k :: |p.tr| <= k < |q.tr| ==> game !in q.tr[k].rows
  {
    q := Extend(p, Delete(game));
    q := Extend(q, FirstSet(1, true));
    q := Extend(q, Reread(1));
    q := Extend(q, SecondSet(1, true));
  }

  /**
   With a deletion inside the call, a refresh can return a placement the directory never held at any
   instant of the run.
   */
  lemma DeletedRowReturnsUnheld(game: string, a: string, t1: nat, t2: nat) returns (p: Prefix)
    requires t1 < t2
    ensures Good(p) && 1 in End(p).requests && End(p).requests[1].phase.Placed?
    ensures forall k :: 0 <= k < |p.tr| ==> Lookup(p.tr[k], game) != Some(End(p).requests[1].phase.placement)
  {
    var q, row := RefreshStanding(game, a, t1, t2);
    p := RowVanishes(q, game, row);
    assert forall k :: 0 <= k < |q.tr| ==> p.tr[k] == q.tr[k];
  }

  /**
   A router that loses a cold race to a shard missing from its own snapshot answers with its own pick and
   the winner's generation: the response and the directory then name different shards.
   */
  lemma LoserAnswersOwnPick(game: string, a: string, b: string, t: nat) returns (p: Prefix)
    requires a != b
    ensures Good(p) && 1 in End(p).requests && End(p).requests[1].phase.Placed? && game in End(p).rows
    ensures var r := End(p).requests[1];
            && r.phase.placement == End(p).rows[game] && r.phase.placement.shardId == a
            && ResponseShard(r.phase.plan, r.phase.placement).shardId == b
  {
    p := Start(t);
    p := PrepareClaim(p, 1, game, b);
    p := PrepareClaim(p, 2, game, a);
    p := Extend(p, FirstSet(2, true));
    p := Extend(p, FirstSet(1, true));
    p := Extend(p, Reread(1));
    var r := End(p).requests[1];
    FindByIdFirst(r.phase.plan.shards, a);
  }

  /** With one healthy row and one that fails the gates, the healthy one is picked. */
  lemma HealthyIsPickedFirst(b: string, row: ShardRow, now: nat)
    requires !IsEligible(row, 0, now)
    ensures Decide([Healthy(b, now), row], 0, now, None) == Place(Healthy(b, now))
  {
    var shards := [Healthy(b, now), row];
    assert Healthy(b, now) in shards;
    ContractRefusalExact(shards, 0, now, None);
    PlacedShardPassesGates(shards, 0, now, None);
  }

  /** A cold request that sees a healthy `b` and the failing `row` stands before its first SET, for `b`. */
  lemma ColdWithFailingRow(game: string, b: string, row: ShardRow, t: nat) returns (p: Prefix)
    requires !IsEligible(row, 0, t)
    ensures Good(p) && End(p).rows == map[] && End(p).clock == t && End(p).requests.Keys == {1}
    ensures Standing(End(p), 1, game, None, b, t) && End(p).requests[1].required == 0
    ensures End(p).requests[1].phase.plan.shards == [Healthy(b, t), row]
    ensures End(p).requests[1].phase.plan.decidedAt == t
  {
    var start := Start(t);
    var looked := PrepareRead(start, 1, game);
    HealthyIsPickedFirst(b, row, t);
    var chosen := Extend(looked, Choose(1, [Healthy(b, t), row], t));
    p := Extend(chosen, Draft(1, t));
  }

  /**
   A response outside the gates: for every shard row that is not eligible, be it out of contract, draining,
   stale or full, there is a run in which a router that sees exactly this row of the shard answers with it,
   because another router claimed that shard first.
   */
  lemma LoserAnswersFailingShard(game: string, b: string, row: ShardRow, t: nat) returns (p: Prefix)
    requires b != row.shardId && !IsEligible(row, 0, t)
    ensures Good(p) && 1 in End(p).requests && End(p).requests[1].phase.Placed? && End(p).requests[1].required == 0
    ensures var plan := End(p).requests[1].phase.plan;
            && UniqueIds(plan.shards) && plan.decidedAt == t
            && ResponseShard(plan, End(p).requests[1].phase.placement) == row
  {
    p := ColdWithFailingRow(game, b, row, t);
    p := PrepareClaim(p, 2, game, row.shardId);
    p := Extend(p, FirstSet(2, true));
    p := Extend(p, FirstSet(1, true));
    p := Extend(p, Reread(1));
    var r := End(p).requests[1];
    assert r.phase.plan.shards == [Healthy(b, t), row] && r.phase.placement.shardId == row.shardId;
    assert r.phase.plan.shards[1] == row;
    FindByIdFirst(r.phase.plan.shards, row.shardId);
  }

  /** In particular an accepted placement can name a shard whose range excludes the required contract. */
  lemma LoserAnswersOutOfContract(game: string, a: string, b: string, t: nat) returns (p: Prefix)
    requires a != b
    ensures Good(p) && 1 in End(p).requests && End(p).requests[1].phase.Placed?
    ensures var r := End(p).requests[1];
            var answer := ResponseShard(r.phase.plan, r.phase.placement);
            answer.shardId == a && !InRange(answer, r.required) && UniqueIds(r.phase.plan.shards)
  {
    p := LoserAnswersFailingShard(game, b, Healthy(a, t).(contractMin := 1, contractMax := 1), t);
  }
}
