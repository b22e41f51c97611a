/**
 Where the placements and the refusals of a run come from, told by the steps of the run alone: who arrived,
 what its first GET returned, which table it scanned and which clock values it read.
 */
module Provenance {
  import opened Prelude
  import opened Scheduler
  import opened ClaimProtocol
  import opened Fencing

  /** At these steps a request for `game` arrived, read the directory and scanned the table. */
  ghost predicate Asked(tr: seq<State>, st: seq<Step>, id: nat, game: string, a: nat, i: nat, c: nat)
    requires |tr| == |st| + 1
  {
    && a < i < c < |st|
    && st[a].Arrive? && st[a].id == id && st[a].game == game
    && st[i] == Read(id)
    && st[c].Choose? && st[c].id == id
  }

  /** The shard is one the request may take: an open row of its table, and its game's own shard while open. */
  ghost predicate MayPick(
    picked: ShardRow, shards: seq<ShardRow>, required: nat, now: nat, existing: Option<Placement>)
  {
    && picked in shards && OpenFor(picked, required, now)
    && (existing.Some? && (exists s :: s in shards && s.shardId == existing.value.shardId && OpenFor(s, required, now))
        ==> picked.shardId == existing.value.shardId)
  }

  /**
   Request `id` drafted `row` at step `d`, for a shard it was free to take at its own decision time; every
   field follows from that shard, the row its first GET returned, and its second clock read.
   */
  ghost predicate Authored(
    tr: seq<State>, st: seq<Step>, id: nat, game: string, row: Placement, a: nat, i: nat, c: nat, d: nat)
    requires |tr| == |st| + 1
  {
    && Asked(tr, st, id, game, a, i, c)
    && c < d < |st| && st[d] == Draft(id, row.refreshedAt)
    && exists picked ::
         MayPick(picked, st[c].shards, st[a].required, st[c].now, Lookup(tr[i], game))
         && WrittenFor(row, game, picked, Lookup(tr[i], game))
  }

  // ----- following one request back -----------------------------------------------------------

  lemma {:induction false} ArrivalStep(tr: seq<State>, st: seq<Step>, id: nat, m: nat) returns (a: nat)
    requires IsRun(tr, st) && tr[0] == INIT && m <= |st| && id in tr[m].requests
    ensures a < m && st[a] == Arrive(id, tr[m].requests[id].gameId, tr[m].requests[id].required)
  {
    assert Next(tr[m - 1], st[m - 1], tr[m]);
    StepFrame(tr[m - 1], st[m - 1]);
    if id in tr[m - 1].requests {
      a := ArrivalStep(tr, st, id, m - 1);
    } else {
      a := m - 1;
    }
  }

  /** A request that stands behind its decision decided at this step or before. */
  predicate HasDecided(s: State, id: nat) {
    id in s.requests && (HasPlan(s.requests[id].phase) || s.requests[id].phase.Refused?)
  }

  /** What the request decided on this table at this time, given the row it had read. */
  predicate DecidedAs(p: Phase, required: nat, shards: seq<ShardRow>, now: nat, seen: Option<Placement>) {
    var d := Decide(shards, required, now, ActiveShard(seen));
    if p.Refused? then !d.Place? && p.decision == d
    else HasPlan(p) && d == Place(p.plan.picked) && p.plan == Plan(seen, shards, now, p.plan.picked)
  }

  lemma DecidedOrKept(s: State, step: Step, id: nat)
    requires Enabled(s, step) && HasDecided(Apply(s, step), id)
    ensures id in s.requests
    ensures var r, r' := s.requests[id], Apply(s, step).requests[id];
            || (step.Choose? && step.id == id && r.phase.Looked?
                && DecidedAs(r'.phase, r'.required, step.shards, step.now, r.phase.seen))
            || (HasDecided(s, id) && r.required == r'.required
                && forall shards, now, seen :: DecidedAs(r.phase, r.required, shards, now, seen)
                                               ==> DecidedAs(r'.phase, r'.required, shards, now, seen))
  {
  }

  lemma {:induction false} ChoiceStep(tr: seq<State>, st: seq<Step>, id: nat, m: nat) returns (c: nat)
    requires IsRun(tr, st) && tr[0] == INIT && m <= |st| && HasDecided(tr[m], id)
    ensures c < m && st[c].Choose? && st[c].id == id && id in tr[c].requests && tr[c].requests[id].phase.Looked?
    ensures var r := tr[m].requests[id];
            DecidedAs(r.phase, r.required, st[c].shards, st[c].now, tr[c].requests[id].phase.seen)
  {
    assert Next(tr[m - 1], st[m - 1], tr[m]);
    DecidedOrKept(tr[m - 1], st[m - 1], id);
    if st[m - 1].Choose? && st[m - 1].id == id {
      c := m - 1;
    } else {
      c := ChoiceStep(tr, st, id, m - 1);
    }
  }

  /** The whole way of a request to its decision. */
  lemma DecisionTraced(tr: seq<State>, st: seq<Step>, id: nat, m: nat) returns (a: nat, i: nat, c: nat)
    requires IsRun(tr, st) && tr[0] == INIT && m <= |st| && HasDecided(tr[m], id)
    ensures Asked(tr, st, id, tr[m].requests[id].gameId, a, i, c) && c < m
    ensures var r := tr[m].requests[id];
            st[a].required == r.required
            && DecidedAs(r.phase, r.required, st[c].shards, st[c].now, Lookup(tr[i], r.gameId))
  {
    c := ChoiceStep(tr, st, id, m);
    RequestStays(tr, st, id, c, m);
    i := ReadStep(tr, st, id, c);
    assert Next(tr[i], st[i], tr[i + 1]);
    RequestStays(tr, st, id, i, c);
    a := ArrivalStep(tr, st, id, i);
  }

  /** A placed decision picks a shard the request may take. */
  lemma PlacedMayPick(shards: seq<ShardRow>, required: nat, now: nat, existing: Option<Placement>, picked: ShardRow)
    requires Decide(shards, required, now, ActiveShard(existing)) == Place(picked)
    ensures MayPick(picked, shards, required, now, existing)
  {
    PlacesExactlyOpen(shards, required, now, ActiveShard(existing));
    if existing.Some? {
      StickyExactly(shards, required, now, existing.value.shardId);
      forall s
        ensures IsEligible(s, required, now) <==> OpenFor(s, required, now)
      {
        EligibleIsOpen(s, required, now);
      }
    }
  }

  // ----- what a run explains ------------------------------------------------------------------

  /** Every row a request drafts, and so every placement a claim returns as its own, is explained by its steps. */
  lemma DraftExplained(tr: seq<State>, st: seq<Step>, id: nat, m: nat) returns (a: nat, i: nat, c: nat, d: nat)
    requires IsRun(tr, st) && tr[0] == INIT && m <= |st| && HasDrafted(tr[m], id)
    ensures d < m && Authored(tr, st, id, tr[m].requests[id].gameId, tr[m].requests[id].phase.draft, a, i, c, d)
  {
    var r := tr[m].requests[id];
    d := DraftStep(tr, st, id, m);
    RequestStays(tr, st, id, d, m);
    a, i, c := DecisionTraced(tr, st, id, d);
    CoherentRun(tr, st, m);
    assert RequestCoherent(r);
    PlacedMayPick(st[c].shards, r.required, st[c].now, Lookup(tr[i], r.gameId), r.phase.plan.picked);
    assert WrittenFor(r.phase.draft, r.gameId, r.phase.plan.picked, Lookup(tr[i], r.gameId));
  }

  /**
   Provenance of the directory: every row stored at any point of any run was stored by a request that arrived,
   read, decided and drafted in this order, and carries exactly the fields those steps determine.
   */
  lemma StoredRowExplained(tr: seq<State>, st: seq<Step>, game: string, m: nat)
    returns (id: nat, a: nat, i: nat, c: nat, d: nat, w: nat)
    requires IsRun(tr, st) && tr[0] == INIT && m <= |st| && game in tr[m].rows
    ensures d < w < m && st[w] in {FirstSet(id, true), FirstSet(id, false), SecondSet(id, true), SecondSet(id, false)}
    ensures Authored(tr, st, id, game, tr[m].rows[game], a, i, c, d)
  {
    w := LastWrite(tr, st, game, m);
    id := st[w].id;
    WriteStoresDraft(tr, st, game, w);
    a, i, c, d := DraftExplained(tr, st, id, w);
  }

  /** A returned placement is the claim's own draft or was read back from the directory. */
  lemma {:induction false} OwnOrReadBack(tr: seq<State>, st: seq<Step>, id: nat, m: nat) returns (k: nat)
    requires IsRun(tr, st) && tr[0] == INIT && m <= |st| && id in tr[m].requests && tr[m].requests[id].phase.Placed?
    ensures k < m
    ensures var r := tr[m].requests[id];
            r.phase.placement == r.phase.draft || Lookup(tr[k], r.gameId) == Some(r.phase.placement)
  {
    assert Next(tr[m - 1], st[m - 1], tr[m]);
    StepFrame(tr[m - 1], st[m - 1]);
    if id in tr[m - 1].requests && tr[m - 1].requests[id].phase.Placed? {
      k := OwnOrReadBack(tr, st, id, m - 1);
    } else {
      k := m - 1;
    }
  }

  /** Every placement any claim returns is explained in the same way, its own or another request's. */
  lemma ReturnedRowExplained(tr: seq<State>, st: seq<Step>, id: nat, m: nat)
    returns (author: nat, a: nat, i: nat, c: nat, d: nat)
    requires IsRun(tr, st) && tr[0] == INIT && m <= |st| && id in tr[m].requests && tr[m].requests[id].phase.Placed?
    ensures var r := tr[m].requests[id];
            d < m && Authored(tr, st, author, r.gameId, r.phase.placement, a, i, c, d)
            && (author != id ==> r.phase.placement != r.phase.draft)
  {
    var r := tr[m].requests[id];
    if r.phase.placement == r.phase.draft {
      author := id;
      a, i, c, d := DraftExplained(tr, st, id, m);
    } else {
      var k := OwnOrReadBack(tr, st, id, m);
      var w;
      author, a, i, c, d, w := StoredRowExplained(tr, st, r.gameId, k);
    }
  }

  /** The table has no open row, and the refusal reports what it lists. */
  ghost predicate Explains(d: Decision, shards: seq<ShardRow>, required: nat, now: nat) {
    && !d.Place? && d.required == required
    && (forall s :: s in shards ==> !OpenFor(s, required, now))
    && (d.ContractOutOfRange? <==>
          shards != [] && forall s :: s in shards ==> !(s.contractMin <= required <= s.contractMax))
    && (d.ContractOutOfRange? ==> |d.ranges| == |shards| && forall i :: 0 <= i < |shards| ==>
          d.ranges[i] == (shards[i].contractMin, shards[i].contractMax))
    && (d.NoEligibleShards? ==> d.seen == |shards|)
  }

  /**
   A request is refused only for the table it scanned itself: no row there was open for the contract it asked
   for at its own decision time, and the report says whether that was for the contract alone.
   */
  lemma RefusalExplained(tr: seq<State>, st: seq<Step>, id: nat, m: nat) returns (a: nat, i: nat, c: nat)
    requires IsRun(tr, st) && tr[0] == INIT && m <= |st| && id in tr[m].requests && tr[m].requests[id].phase.Refused?
    ensures Asked(tr, st, id, tr[m].requests[id].gameId, a, i, c) && c < m
    ensures Explains(tr[m].requests[id].phase.decision, st[c].shards, st[a].required, st[c].now)
  {
    a, i, c := DecisionTraced(tr, st, id, m);
    var active := ActiveShard(Lookup(tr[i], tr[m].requests[id].gameId));
    PlacesExactlyOpen(st[c].shards, st[a].required, st[c].now, active);
    ContractRefusalExact(st[c].shards, st[a].required, st[c].now, active);
    RefusalReport(st[c].shards, st[a].required, st[c].now, active);
  }
}
