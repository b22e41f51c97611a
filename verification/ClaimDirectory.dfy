/**
 The claim as the router writes it: a sequence of conditional commands against the directory, here run
 without interruption. The contract says, case by case on what is stored, what is returned and stored;
 `UninterruptedClaim` ties it to the steps of the transition system.
 */
module ClaimDirectory {
  import opened Prelude
  import opened Scheduler
  import opened ClaimProtocol

  class ActiveGameDirectory {
    var rows: map<string, Placement>

    constructor ()
      ensures rows == map[]
    {
      rows := map[];
    }

    method Get(game: string) returns (row: Option<Placement>)
      ensures row.Some? <==> game in rows
      ensures row.Some? ==> row.value == rows[game]
    {
      row := if game in rows then Some(rows[game]) else None;
    }

    /** `SET NX`: stores only when there is no row. */
    method SetIfAbsent(game: string, row: Placement) returns (ok: bool)
      modifies this
      ensures ok <==> game !in old(rows)
      ensures rows == if ok then old(rows)[game := row] else old(rows)
    {
      ok := game !in rows;
      if ok {
        rows := rows[game := row];
      }
    }

    /** `SET XX`: stores only over an existing row. */
    method SetIfPresent(game: string, row: Placement) returns (ok: bool)
      modifies this
      ensures ok <==> game in old(rows)
      ensures rows == if ok then old(rows)[game := row] else old(rows)
    {
      ok := game in rows;
      if ok {
        rows := rows[game := row];
      }
    }

    method ClaimActiveGame(game: string, shard: ShardRow, existing: Option<Placement>, now: nat)
      returns (placement: Placement)
      modifies this
      ensures var outcome := ClaimOutcome(old(rows), game, shard, existing, now);
              rows == outcome.0 && placement == outcome.1
      ensures if game in old(rows) && KeepsStored(old(rows)[game], shard, existing)
              then rows == old(rows) && placement == old(rows)[game]
              else placement.refreshedAt == now && WrittenFor(placement, game, shard, existing)
    {
      var same := existing.Some? && existing.value.shardId == shard.shardId;
      var draft := DraftFor(game, shard, existing, now);
      var ok;
      if same {
        ok := SetIfPresent(game, draft);
      } else {
        ok := SetIfAbsent(game, draft);
      }
      if ok {
        return draft;
      }
      var stored := Get(game);
      if stored.Some? && (stored.value.shardId == shard.shardId || existing.None?) {
        return stored.value;
      }
      var _ := SetIfPresent(game, draft);
      placement := draft;
    }
  }

  function DraftFor(game: string, shard: ShardRow, existing: Option<Placement>, now: nat): Placement {
    MakeDraft(game, Plan(existing, [], 0, shard), now)
  }

  /** The stored row is kept and returned when it is not this claim's to replace. */
  predicate KeepsStored(stored: Placement, shard: ShardRow, existing: Option<Placement>) {
    existing.Some? ==> existing.value.shardId != shard.shardId && stored.shardId == shard.shardId
  }

  /** What an uninterrupted claim leaves behind and returns, by what it found stored. */
  function ClaimOutcome(
    rows: map<string, Placement>, game: string, shard: ShardRow, existing: Option<Placement>, now: nat)
    : (map<string, Placement>, Placement)
  {
    var draft := DraftFor(game, shard, existing, now);
    if game in rows then
      if KeepsStored(rows[game], shard, existing) then (rows, rows[game]) else (rows[game := draft], draft)
    else if existing.Some? && existing.value.shardId == shard.shardId then (rows, draft)
    else (rows[game := draft], draft)
  }

  /** Runs the remaining commands of a claim with nothing in between. */
  function FinishClaim(s: State, id: nat): State
    requires id in s.requests && s.requests[id].phase.Claiming?
  {
    var s1 := Apply(s, FirstSet(id, true));
    if s1.requests[id].phase.Placed? then s1
    else
      var s2 := Apply(s1, Reread(id));
      if s2.requests[id].phase.Placed? then s2 else Apply(s2, SecondSet(id, true))
  }

  /** The imperative claim and the transition system agree when nothing interferes. */
  lemma UninterruptedClaim(s: State, id: nat)
    requires Coherent(s) && id in s.requests && s.requests[id].phase.Claiming?
    ensures var r := s.requests[id];
            var outcome := ClaimOutcome(
              s.rows, r.gameId, r.phase.plan.picked, r.phase.plan.existing, r.phase.draft.refreshedAt);
            var s' := FinishClaim(s, id);
            && s'.requests[id].phase.Placed?
            && (s'.rows, s'.requests[id].phase.placement) == outcome
  {
    assert RequestCoherent(s.requests[id]);
  }

  /**
   An uninterrupted claim leaves its result stored, except for the one case its caller can see: a refresh
   of a row that is gone. It never touches another game's row.
   */
  lemma UninterruptedClaimStores(
    rows: map<string, Placement>, game: string, shard: ShardRow, existing: Option<Placement>, now: nat)
    ensures var (rows', placement) := ClaimOutcome(rows, game, shard, existing, now);
            && ((game in rows' && rows'[game] == placement)
                <==> !(game !in rows && existing.Some? && existing.value.shardId == shard.shardId))
            && (forall other :: other != game ==> (other in rows' <==> other in rows))
            && (forall other :: other != game && other in rows ==> rows'[other] == rows[other])
  {
  }
}
