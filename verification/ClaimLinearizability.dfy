/**
 Which placements a claim can return: rows the directory held during the call, unless the row was
 deleted under it. Also where the stored rows come from.
 */
module ClaimLinearizability {
  import opened Prelude
  import opened Scheduler
  import opened ClaimProtocol

  /** The directory held `row` for `game` at some instant between `from` and `to`. */
  ghost predicate HeldWithin(tr: seq<State>, game: string, row: Placement, from: nat, to: nat)
    requires from <= to < |tr|
  {
    exists k :: from <= k <= to && Lookup(tr[k], game) == Some(row)
  }

  /** What a call that read at `from` and saw no deletion knows at `to`. */
  ghost predicate CallInv(tr: seq<State>, id: nat, game: string, from: nat, to: nat)
    requires from <= to < |tr|
  {
    && Mine(tr[to], id, game)
    && var p := tr[to].requests[id].phase;
       && !p.Arrived?
       && (p.Looked? || p.Chosen? || p.Claiming? ==> FirstRead(p).Some? ==> game in tr[to].rows)
       && (p.Refetching? || p.Superseding? ==> game in tr[to].rows)
       && (p.Placed? ==> HeldWithin(tr, game, p.placement, from, to))
  }

  lemma {:induction false} CallInvHolds(tr: seq<State>, st: seq<Step>, id: nat, game: string, i: nat, m: nat)
    requires IsRun(tr, st) && i < m <= |st|
    requires st[i] == Read(id) && Mine(tr[i], id, game) && NoDelete(st, game, i, m)
    ensures CallInv(tr, id, game, i + 1, m)
    decreases m
  {
    assert Next(tr[m - 1], st[m - 1], tr[m]);
    StepFrame(tr[m - 1], st[m - 1]);
    if i + 1 < m {
      CallInvHolds(tr, st, id, game, i, m - 1);
      var p, p' := tr[m - 1].requests[id].phase, tr[m].requests[id].phase;
      assert st[m - 1] != Delete(game);
      assert game in tr[m - 1].rows ==> game in tr[m].rows;
      if p'.Placed? {
        if p.Placed? {
          assert HeldWithin(tr, game, p'.placement, i + 1, m - 1);
        } else {
          assert Lookup(tr[m], game) == Some(p'.placement);
        }
      }
    }
  }

  /**
   Claim linearizability: for any number of routers, any clocks and any interleaving, a claim during
   whose call the row is never deleted returns a placement the directory held at an instant inside the
   call, on every return path.
   */
  lemma ClaimLinearizable(tr: seq<State>, st: seq<Step>, id: nat, i: nat, j: nat)
    requires IsRun(tr, st) && i < j < |st|
    requires st[i] == Read(id) && id in tr[i].requests
    requires NoDelete(st, tr[i].requests[id].gameId, i, j + 1)
    requires id in tr[j].requests && !tr[j].requests[id].phase.Placed?
    requires id in tr[j + 1].requests && tr[j + 1].requests[id].phase.Placed?
    ensures HeldWithin(tr, tr[i].requests[id].gameId, tr[j + 1].requests[id].phase.placement, i + 1, j + 1)
  {
    CallInvHolds(tr, st, id, tr[i].requests[id].gameId, i, j + 1);
  }

  /**
   Without any hypothesis on deletions, the only way to return a placement the directory does not hold
   on completion is a second SET that found the row gone; and then a deletion fell inside the call.
   */
  lemma UnheldPlacementNeedsDelete(tr: seq<State>, st: seq<Step>, id: nat, i: nat, j: nat)
    requires IsRun(tr, st) && i < j < |st|
    requires st[i] == Read(id) && id in tr[i].requests
    requires id in tr[j].requests && !tr[j].requests[id].phase.Placed?
    requires id in tr[j + 1].requests && tr[j + 1].requests[id].phase.Placed?
    ensures var game := tr[i].requests[id].gameId;
            Lookup(tr[j + 1], game) != Some(tr[j + 1].requests[id].phase.placement)
            <==> st[j] == SecondSet(id, true) && game !in tr[j].rows
    ensures var game := tr[i].requests[id].gameId;
            st[j] == SecondSet(id, true) && game !in tr[j].rows
            ==> exists k :: i <= k < j && st[k] == Delete(game)
  {
    var game := tr[i].requests[id].gameId;
    RequestStays(tr, st, id, i, j);
    assert Next(tr[j], st[j], tr[j + 1]);
    StepFrame(tr[j], st[j]);
    if st[j] == SecondSet(id, true) && game !in tr[j].rows && NoDelete(st, game, i, j) {
      CallInvHolds(tr, st, id, game, i, j);
      assert false;
    }
  }

  // ----- where stored rows come from --------------------------------------------------------

  /** At step `j` a request that decided on an eligible shard of its own snapshot wrote `row`. */
  ghost predicate GatedWrite(tr: seq<State>, st: seq<Step>, j: nat, game: string, row: Placement)
    requires |tr| == |st| + 1
  {
    && j < |st| && Enabled(tr[j], st[j]) && Writes(tr[j], st[j], game)
    && var r := tr[j].requests[st[j].id];
       && r.phase.draft == row
       && r.phase.plan.picked in r.phase.plan.shards
       && OpenFor(r.phase.plan.picked, r.required, r.phase.plan.decidedAt)
       && WrittenFor(row, game, r.phase.plan.picked, r.phase.plan.existing)
  }

  lemma WriterPassedGates(tr: seq<State>, st: seq<Step>, j: nat, game: string)
    requires IsRun(tr, st) && j < |st| && Coherent(tr[j])
    requires Enabled(tr[j], st[j]) && Writes(tr[j], st[j], game)
    ensures GatedWrite(tr, st, j, game, tr[j].requests[st[j].id].phase.draft)
  {
    var r := tr[j].requests[st[j].id];
    assert RequestCoherent(r);
    PlacedShardPassesGates(r.phase.plan.shards, r.required, r.phase.plan.decidedAt, ActiveShard(r.phase.plan.existing));
  }

  /**
   Contract gate over whole runs: from an empty directory, every row stored at any point was written by
   a request whose own snapshot, at its own decision time, let that shard through every gate.
   */
  lemma {:induction false} StoredRowsPassedGates(tr: seq<State>, st: seq<Step>, game: string, m: nat) returns (j: nat)
    requires IsRun(tr, st) && tr[0] == INIT && m <= |st|
    requires game in tr[m].rows
    ensures j < m && GatedWrite(tr, st, j, game, tr[m].rows[game])
  {
    assert Next(tr[m - 1], st[m - 1], tr[m]);
    StepFrame(tr[m - 1], st[m - 1]);
    if Writes(tr[m - 1], st[m - 1], game) {
      CoherentRun(tr, st, m - 1);
      WriterPassedGates(tr, st, m - 1, game);
      j := m - 1;
    } else {
      j := StoredRowsPassedGates(tr, st, game, m - 1);
    }
  }
}
