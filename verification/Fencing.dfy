/**
 The generation as a fencing token. The design pages promise a monotonic token; under overlapping claims
 the code does not keep it (module Witnesses). Here: exactly which runs keep it, deletions included.
 */
module Fencing {
  import opened Prelude
  import opened ClaimProtocol
  import opened ColdRace

  function StoredFence(s: State, game: string): Option<(string, nat)> {
    if game in s.rows then Some(Fence(s.rows[game])) else None
  }

  /** The author's first GET still describes the stored row. */
  predicate FirstReadCurrent(s: State, step: Step, game: string)
    requires Enabled(s, step) && Writes(s, step, game)
  {
    var e := s.requests[step.id].phase.plan.existing;
    StoredFence(s, game) == if e.Some? then Some(Fence(e.value)) else None
  }

  /**
   A write over a row its author's first read still describes never lowers the generation, keeps it when
   it keeps the shard, and on a shard change raises it exactly when the clock has moved past it. Where there
   was no row, then or now, it stores its own clock read.
   */
  lemma CurrentReaderKeepsFence(s: State, step: Step, game: string)
    requires RowsOk(s) && Coherent(s) && Enabled(s, step) && Writes(s, step, game)
    requires FirstReadCurrent(s, step, game)
    ensures game in Apply(s, step).rows
    ensures game in s.rows ==>
              var was, now := s.rows[game], Apply(s, step).rows[game];
              && was.generation <= now.generation
              && (now.shardId == was.shardId ==> now.generation == was.generation)
              && (now.shardId != was.shardId ==>
                    (was.generation < now.generation <==> was.generation < now.refreshedAt))
    ensures game !in s.rows ==>
              var now := Apply(s, step).rows[game]; now.generation == now.placedAt == now.refreshedAt
  {
    var r := s.requests[step.id];
    assert RequestCoherent(r) && RequestRowsOk(r, s.clock);
    StepFrame(s, step);
  }

  // ----- the writes of a run ------------------------------------------------------------------

  /** Step `j` stores a row for the game. */
  ghost predicate IsWrite(tr: seq<State>, st: seq<Step>, game: string, j: nat)
    requires |tr| == |st| + 1
  {
    j < |st| && Enabled(tr[j], st[j]) && Writes(tr[j], st[j], game)
  }

  /** The generation in the directory after step `j`. */
  ghost function GenerationAfter(tr: seq<State>, game: string, j: nat): nat
    requires j + 1 < |tr|
  {
    if game in tr[j + 1].rows then tr[j + 1].rows[game].generation else 0
  }

  /** No write of the run stores a smaller generation than an earlier one, rows deleted in between included. */
  ghost predicate GenerationsNondecreasing(tr: seq<State>, st: seq<Step>, game: string)
    requires |tr| == |st| + 1
  {
    forall k, j :: 0 <= k < j < |st| && IsWrite(tr, st, game, k) && IsWrite(tr, st, game, j) ==>
      GenerationAfter(tr, game, k) <= GenerationAfter(tr, game, j)
  }

  /** Step `i` is where the author of write `j` fixed its generation: a refresh by its GET, others by their draft. */
  ghost predicate FixesGeneration(tr: seq<State>, st: seq<Step>, game: string, i: nat, j: nat)
    requires |tr| == |st| + 1 && IsWrite(tr, st, game, j) && i < |st|
  {
    if IsRefresh(tr[j].requests[st[j].id].phase.plan) then st[i] == Read(st[j].id)
    else st[i].Draft? && st[i].id == st[j].id
  }

  /** Write `k` of another request falls between the two moments and stores a larger generation. */
  ghost predicate Overtakes(tr: seq<State>, st: seq<Step>, game: string, i: nat, k: nat, j: nat)
    requires |tr| == |st| + 1 && IsWrite(tr, st, game, j)
  {
    && i < k < j && FixesGeneration(tr, st, game, i, j)
    && IsWrite(tr, st, game, k) && st[k].id != st[j].id
    && GenerationAfter(tr, game, j) < GenerationAfter(tr, game, k)
  }

  ghost predicate Overtaken(tr: seq<State>, st: seq<Step>, game: string, j: nat)
    requires |tr| == |st| + 1 && IsWrite(tr, st, game, j)
  {
    exists i, k :: Overtakes(tr, st, game, i, k, j)
  }

  lemma WriteStoresDraft(tr: seq<State>, st: seq<Step>, game: string, j: nat)
    requires IsRun(tr, st) && IsWrite(tr, st, game, j)
    ensures Lookup(tr[j + 1], game) == Some(tr[j].requests[st[j].id].phase.draft)
    ensures HasDraft(tr[j].requests[st[j].id].phase)
    ensures st[j].id in tr[j + 1].requests && Terminal(tr[j + 1].requests[st[j].id].phase)
  {
    assert Next(tr[j], st[j], tr[j + 1]);
    StepFrame(tr[j], st[j]);
  }

  /** A request writes at most once. */
  lemma AuthorsDiffer(tr: seq<State>, st: seq<Step>, game: string, k: nat, j: nat)
    requires IsRun(tr, st) && k < j && IsWrite(tr, st, game, k) && IsWrite(tr, st, game, j)
    ensures st[k].id != st[j].id
  {
    WriteStoresDraft(tr, st, game, k);
    if st[k].id == st[j].id {
      TerminalStays(tr, st, st[k].id, k + 1, j);
    }
  }

  lemma {:induction false} ClockMonotone(tr: seq<State>, st: seq<Step>, m: nat, n: nat)
    requires IsRun(tr, st) && m <= n <= |st|
    ensures tr[m].clock <= tr[n].clock
    decreases n
  {
    if m < n {
      ClockMonotone(tr, st, m, n - 1);
      assert Next(tr[n - 1], st[n - 1], tr[n]);
      StepFrame(tr[n - 1], st[n - 1]);
    }
  }

  predicate HasRead(s: State, id: nat) {
    id in s.requests && (s.requests[id].phase.Looked? || HasPlan(s.requests[id].phase))
  }

  predicate HasDrafted(s: State, id: nat) {
    id in s.requests && HasDraft(s.requests[id].phase)
  }

  /** A request that carries a row it read got it by this GET or carried it before. */
  lemma ReadOrKept(s: State, step: Step, id: nat)
    requires Enabled(s, step) && HasRead(Apply(s, step), id)
    ensures id in s.requests && s.requests[id].gameId == Apply(s, step).requests[id].gameId
    ensures var row := FirstRead(Apply(s, step).requests[id].phase);
            if step == Read(id) then row == Lookup(s, s.requests[id].gameId)
            else HasRead(s, id) && row == FirstRead(s.requests[id].phase)
  {
  }

  /** Likewise for the draft, which it makes from its plan. */
  lemma DraftedOrKept(s: State, step: Step, id: nat)
    requires Enabled(s, step) && HasDrafted(Apply(s, step), id)
    ensures var draft := Apply(s, step).requests[id].phase.draft;
            || (step == Draft(id, draft.refreshedAt)
                && s.requests[id].phase == Chosen(Apply(s, step).requests[id].phase.plan))
            || (HasDrafted(s, id) && draft == s.requests[id].phase.draft
                && s.requests[id].phase.plan == Apply(s, step).requests[id].phase.plan)
  {
  }

  /** Where a request read the row it carries. */
  lemma {:induction false} ReadStep(tr: seq<State>, st: seq<Step>, id: nat, m: nat) returns (i: nat)
    requires IsRun(tr, st) && tr[0] == INIT && m <= |st| && HasRead(tr[m], id)
    ensures i < m && st[i] == Read(id)
    ensures FirstRead(tr[m].requests[id].phase) == Lookup(tr[i], tr[m].requests[id].gameId)
  {
    assert Next(tr[m - 1], st[m - 1], tr[m]);
    ReadOrKept(tr[m - 1], st[m - 1], id);
    if st[m - 1] == Read(id) {
      i := m - 1;
    } else {
      i := ReadStep(tr, st, id, m - 1);
    }
  }

  /** Where a request drafted the row it carries. */
  lemma {:induction false} DraftStep(tr: seq<State>, st: seq<Step>, id: nat, m: nat) returns (i: nat)
    requires IsRun(tr, st) && tr[0] == INIT && m <= |st| && HasDrafted(tr[m], id)
    ensures i < m && st[i] == Draft(id, tr[m].requests[id].phase.draft.refreshedAt)
    ensures id in tr[i].requests && tr[i].requests[id].phase == Chosen(tr[m].requests[id].phase.plan)
  {
    assert Next(tr[m - 1], st[m - 1], tr[m]);
    DraftedOrKept(tr[m - 1], st[m - 1], id);
    if st[m - 1].Draft? && st[m - 1].id == id {
      i := m - 1;
    } else {
      i := DraftStep(tr, st, id, m - 1);
    }
  }

  /** The write a present row comes from. */
  lemma {:induction false} LastWrite(tr: seq<State>, st: seq<Step>, game: string, m: nat) returns (w: nat)
    requires IsRun(tr, st) && tr[0] == INIT && m <= |st| && game in tr[m].rows
    ensures w < m && IsWrite(tr, st, game, w) && Lookup(tr[w + 1], game) == Lookup(tr[m], game)
    ensures forall k :: w < k < m ==> !IsWrite(tr, st, game, k)
  {
    assert Next(tr[m - 1], st[m - 1], tr[m]);
    StepFrame(tr[m - 1], st[m - 1]);
    if IsWrite(tr, st, game, m - 1) {
      w := m - 1;
    } else {
      w := LastWrite(tr, st, game, m - 1);
    }
  }

  /** A generation drafted from the clock is at least as large as everything stored before. */
  lemma DraftBoundsEarlier(tr: seq<State>, st: seq<Step>, game: string, d: nat, k: nat)
    requires IsRun(tr, st) && SharedClock(tr, st) && tr[0] == INIT
    requires k < d < |st| && st[d].Draft? && IsWrite(tr, st, game, k)
    ensures GenerationAfter(tr, game, k) <= st[d].now
  {
    WriteStoresDraft(tr, st, game, k);
    ReachableRowsOk(tr, st, k + 1);
    ClockMonotone(tr, st, k + 1, d);
  }

  // ----- the interference bound ---------------------------------------------------------------

  /** A refresh that stores less than the write before it was overtaken since its GET. */
  lemma RefreshNeedsOverlap(tr: seq<State>, st: seq<Step>, game: string, k: nat, j: nat) returns (i: nat)
    requires IsRun(tr, st) && tr[0] == INIT && k < j
    requires IsWrite(tr, st, game, k) && IsWrite(tr, st, game, j)
    requires forall x :: k < x < j ==> !IsWrite(tr, st, game, x)
    requires GenerationAfter(tr, game, j) < GenerationAfter(tr, game, k)
    requires IsRefresh(tr[j].requests[st[j].id].phase.plan)
    ensures Overtakes(tr, st, game, i, k, j)
  {
    var id := st[j].id;
    WriteStoresDraft(tr, st, game, j);
    AuthorsDiffer(tr, st, game, k, j);
    CoherentRun(tr, st, j);
    assert RequestCoherent(tr[j].requests[id]);
    i := ReadStep(tr, st, id, j);
    var w := LastWrite(tr, st, game, i);
    assert GenerationAfter(tr, game, w) == GenerationAfter(tr, game, j);
    assert k != i by {
      assert Next(tr[i], st[i], tr[i + 1]);
    }
    assert w < k ==> i < k;
  }

  /** A write of a fresh generation that stores less than the write before it was overtaken since its draft. */
  lemma FreshNeedsOverlap(tr: seq<State>, st: seq<Step>, game: string, k: nat, j: nat) returns (i: nat)
    requires IsRun(tr, st) && SharedClock(tr, st) && tr[0] == INIT && k < j
    requires IsWrite(tr, st, game, k) && IsWrite(tr, st, game, j)
    requires GenerationAfter(tr, game, j) < GenerationAfter(tr, game, k)
    requires !IsRefresh(tr[j].requests[st[j].id].phase.plan)
    ensures Overtakes(tr, st, game, i, k, j)
  {
    var id := st[j].id;
    WriteStoresDraft(tr, st, game, j);
    AuthorsDiffer(tr, st, game, k, j);
    CoherentRun(tr, st, j);
    assert RequestCoherent(tr[j].requests[id]);
    i := DraftStep(tr, st, id, j);
    if k < i {
      DraftBoundsEarlier(tr, st, game, i, k);
      assert false;
    }
  }

  /**
   Interference bound: with a shared clock, whenever a write stores a smaller generation than the write
   before it, be the row deleted in between or not, that earlier write belongs to another request and fell
   inside this claim: after its first GET if it is a refresh, after its draft otherwise.
   */
  lemma RegressionNeedsOverlap(tr: seq<State>, st: seq<Step>, game: string, k: nat, j: nat) returns (i: nat)
    requires IsRun(tr, st) && SharedClock(tr, st) && tr[0] == INIT && k < j
    requires IsWrite(tr, st, game, k) && IsWrite(tr, st, game, j)
    requires forall x :: k < x < j ==> !IsWrite(tr, st, game, x)
    requires GenerationAfter(tr, game, j) < GenerationAfter(tr, game, k)
    ensures Overtakes(tr, st, game, i, k, j)
  {
    if IsRefresh(tr[j].requests[st[j].id].phase.plan) {
      i := RefreshNeedsOverlap(tr, st, game, k, j);
    } else {
      i := FreshNeedsOverlap(tr, st, game, k, j);
    }
  }

  /** Any inversion contains one between neighbouring writes. */
  lemma {:induction false} NeighbouringInversion(tr: seq<State>, st: seq<Step>, game: string, k: nat, j: nat)
    returns (k': nat, j': nat)
    requires IsRun(tr, st) && k < j && IsWrite(tr, st, game, k) && IsWrite(tr, st, game, j)
    requires GenerationAfter(tr, game, j) < GenerationAfter(tr, game, k)
    ensures k <= k' < j' <= j && IsWrite(tr, st, game, k') && IsWrite(tr, st, game, j')
    ensures GenerationAfter(tr, game, j') < GenerationAfter(tr, game, k')
    ensures forall x :: k' < x < j' ==> !IsWrite(tr, st, game, x)
    decreases j - k
  {
    if forall x :: k < x < j ==> !IsWrite(tr, st, game, x) {
      return k, j;
    }
    var x :| k < x < j && IsWrite(tr, st, game, x);
    if GenerationAfter(tr, game, x) < GenerationAfter(tr, game, k) {
      k', j' := NeighbouringInversion(tr, st, game, k, x);
    } else {
      k', j' := NeighbouringInversion(tr, st, game, x, j);
    }
  }

  /**
   When the token is monotonic, exactly: in a run from the empty directory with a shared clock, over any
   deletions and failures, the stored generations never decrease if and only if no write is overtaken.
   */
  lemma MonotonicExactly(tr: seq<State>, st: seq<Step>, game: string)
    requires IsRun(tr, st) && SharedClock(tr, st) && tr[0] == INIT
    ensures GenerationsNondecreasing(tr, st, game)
            <==> forall j :: 0 <= j < |st| && IsWrite(tr, st, game, j) ==> !Overtaken(tr, st, game, j)
  {
    if !GenerationsNondecreasing(tr, st, game) {
      var k, j :| 0 <= k < j < |st| && IsWrite(tr, st, game, k) && IsWrite(tr, st, game, j)
                  && GenerationAfter(tr, game, j) < GenerationAfter(tr, game, k);
      k, j := NeighbouringInversion(tr, st, game, k, j);
      var i := RegressionNeedsOverlap(tr, st, game, k, j);
      assert Overtaken(tr, st, game, j);
    }
  }
}
