/**
 Serial runs: claims on the game never overlap, though rows may expire and shard tables change at any time.
 Then issued generations never fall, and a present row changes shard only when its shard is not eligible.
 */
module SerialRuns {
  import opened Prelude
  import opened Scheduler
  import opened ClaimProtocol

  /** Between its first GET and its outcome. */
  predicate InFlight(s: State, id: nat, game: string) {
    Mine(s, id, game) && !s.requests[id].phase.Arrived? && !Terminal(s.requests[id].phase)
  }

  ghost predicate Serial(s: State, game: string) {
    forall a, b :: InFlight(s, a, game) && InFlight(s, b, game) ==> a == b
  }

  ghost predicate SerialRun(tr: seq<State>, game: string) {
    forall m :: 0 <= m < |tr| ==> Serial(tr[m], game)
  }

  predicate IsIssued(s: State, id: nat, game: string) {
    Mine(s, id, game) && s.requests[id].phase.Placed?
  }

  /** Every generation issued so far for the game is at most `bound`. */
  ghost predicate IssuedUpTo(s: State, game: string, bound: nat) {
    forall id :: IsIssued(s, id, game) ==> s.requests[id].phase.placement.generation <= bound
  }

  /** The one request in flight sees the row it read, or no row. */
  ghost predicate FlightOk(s: State, p: Phase, game: string)
    requires p.Looked? || HasPlan(p)
  {
    && (game in s.rows ==> FirstRead(p) == Lookup(s, game))
    && (p.Refetching? || p.Superseding? ==> p.plan.existing.Some?)
    && (p.Refetching? && IsRefresh(p.plan) ==> game !in s.rows)
    && (FirstRead(p).Some? ==> IssuedUpTo(s, game, FirstRead(p).value.generation))
    && (HasDraft(p) ==> IssuedUpTo(s, game, p.draft.generation))
  }

  ghost predicate SerialInv(s: State, game: string) {
    && RowsOk(s) && Coherent(s)
    && (forall id :: InFlight(s, id, game) ==> FlightOk(s, s.requests[id].phase, game))
    && (forall id :: IsIssued(s, id, game) ==> s.requests[id].phase.placement == s.requests[id].phase.draft)
    && (game in s.rows ==> IssuedUpTo(s, game, s.rows[game].generation))
  }

  /** Completing leaves either the own draft stored or no row, and returns the own draft. */
  lemma OwnCompletion(s: State, step: Step, game: string)
    requires (step.FirstSet? || step.Reread? || step.SecondSet?) && Enabled(s, step) && Mine(s, step.id, game)
    requires FlightOk(s, s.requests[step.id].phase, game) && RequestCoherent(s.requests[step.id])
    requires Apply(s, step).requests[step.id].phase.Placed?
    ensures var p := Apply(s, step).requests[step.id].phase;
            p.placement == p.draft == s.requests[step.id].phase.draft
    ensures game in Apply(s, step).rows ==> Apply(s, step).rows[game] == s.requests[step.id].phase.draft
  {
  }

  /** A request that completes in a serial run returns its own draft, above everything issued before. */
  lemma CompletionReturnsDraft(s: State, step: Step, game: string, id: nat)
    requires SerialInv(s, game) && Enabled(s, step)
    requires !IsIssued(s, id, game) && IsIssued(Apply(s, step), id, game)
    ensures InFlight(s, id, game) && HasDraft(s.requests[id].phase)
    ensures Apply(s, step).requests[id].phase.placement == Apply(s, step).requests[id].phase.draft
    ensures Apply(s, step).requests[id].phase.draft == s.requests[id].phase.draft
    ensures IssuedUpTo(s, game, Apply(s, step).requests[id].phase.placement.generation)
    ensures game in Apply(s, step).rows ==> Apply(s, step).rows[game] == s.requests[id].phase.draft
  {
    StepFrame(s, step);
    assert id in s.requests && (step.FirstSet? || step.Reread? || step.SecondSet?) && step.id == id;
    assert FlightOk(s, s.requests[id].phase, game) && RequestCoherent(s.requests[id]);
    OwnCompletion(s, step, game);
  }

  lemma SerialRowStep(s: State, step: Step, game: string)
    requires SerialInv(s, game) && Serial(s, game) && Enabled(s, step)
    ensures game in Apply(s, step).rows ==> IssuedUpTo(Apply(s, step), game, Apply(s, step).rows[game].generation)
  {
    var s' := Apply(s, step);
    StepFrame(s, step);
    if game in s'.rows {
      forall id | IsIssued(s', id, game)
        ensures s'.requests[id].phase.placement.generation <= s'.rows[game].generation
      {
        if !IsIssued(s, id, game) {
          CompletionReturnsDraft(s, step, game, id);
        } else if Writes(s, step, game) {
          assert FlightOk(s, s.requests[step.id].phase, game);
        }
      }
    }
  }

  lemma IssuedUpToClock(s: State, game: string)
    requires RowsOk(s)
    ensures IssuedUpTo(s, game, s.clock)
  {
    forall id | IsIssued(s, id, game)
      ensures s.requests[id].phase.placement.generation <= s.clock
    {
      assert RequestRowsOk(s.requests[id], s.clock);
    }
  }

  /** Only the last commands of a claim issue something, and only to its own request. */
  lemma NewlyIssued(s: State, step: Step, game: string, other: nat)
    requires Enabled(s, step) && !IsIssued(s, other, game) && IsIssued(Apply(s, step), other, game)
    ensures InFlight(s, other, game) && (step.FirstSet? || step.Reread? || step.SecondSet?) && step.id == other
  {
  }

  /** A step of someone else leaves a request as it is. */
  lemma OthersUnmoved(s: State, step: Step, id: nat)
    requires Enabled(s, step) && id in Apply(s, step).requests
    requires step.Delete? || step.Tick? || step.id != id
    ensures id in s.requests && Apply(s, step).requests[id] == s.requests[id]
  {
  }

  ghost predicate NoneIssued(s: State, s': State, game: string) {
    forall other :: IsIssued(s', other, game) ==> IsIssued(s, other, game) && s'.requests[other] == s.requests[other]
  }

  /** Nothing is issued by a step that leaves a request of the game in flight. */
  lemma NothingIssued(s: State, step: Step, game: string, id: nat)
    requires Serial(s, game) && Enabled(s, step) && InFlight(Apply(s, step), id, game)
    ensures NoneIssued(s, Apply(s, step), game)
  {
    var s' := Apply(s, step);
    forall other | IsIssued(s', other, game)
      ensures IsIssued(s, other, game) && s'.requests[other] == s.requests[other]
    {
      if IsIssued(s, other, game) {
        StepFrame(s, step);
      } else {
        NewlyIssued(s, step, game, other);
        OthersUnmoved(s, step, id);
        assert InFlight(s, id, game);
        assert false;
      }
    }
  }

  lemma IssuedStays(s: State, s': State, game: string, bound: nat)
    requires NoneIssued(s, s', game) && IssuedUpTo(s, game, bound)
    ensures IssuedUpTo(s', game, bound)
  {
  }

  /** A first GET: the row it returns is at least as new as everything issued. */
  lemma ReadFlightStep(s: State, step: Step, game: string)
    requires SerialInv(s, game) && Serial(s, game) && Enabled(s, step) && step.Read?
    requires InFlight(Apply(s, step), step.id, game)
    ensures FlightOk(Apply(s, step), Apply(s, step).requests[step.id].phase, game)
  {
    NothingIssued(s, step, game, step.id);
    if game in s.rows {
      IssuedStays(s, Apply(s, step), game, s.rows[game].generation);
    }
  }

  /** Nothing was issued and the row is as it was or gone, so what was in order stays in order. */
  lemma FlightKept(s: State, s': State, p: Phase, game: string)
    requires (p.Looked? || HasPlan(p)) && FlightOk(s, p, game) && NoneIssued(s, s', game)
    requires game in s'.rows ==> Lookup(s', game) == Lookup(s, game)
    ensures FlightOk(s', p, game)
  {
    if FirstRead(p).Some? {
      IssuedStays(s, s', game, FirstRead(p).value.generation);
    }
    if HasDraft(p) {
      IssuedStays(s, s', game, p.draft.generation);
    }
  }

  /** Deciding and drafting: the draft carries the generation read, or the clock. */
  lemma LocalFlightStep(s: State, step: Step, game: string)
    requires SerialInv(s, game) && Serial(s, game) && Enabled(s, step)
    requires (step.Choose? || step.Draft?) && step.now == s.clock
    requires InFlight(Apply(s, step), step.id, game)
    ensures FlightOk(Apply(s, step), Apply(s, step).requests[step.id].phase, game)
  {
    NothingIssued(s, step, game, step.id);
    IssuedUpToClock(s, game);
    IssuedStays(s, Apply(s, step), game, s.clock);
    assert FlightOk(s, s.requests[step.id].phase, game);
    FlightKept(s, Apply(s, step), s.requests[step.id].phase, game);
  }

  /** A refused SET and a re-read that leads to a takeover. */
  lemma CommandFlightStep(s: State, step: Step, game: string)
    requires SerialInv(s, game) && Serial(s, game) && Enabled(s, step)
    requires step.FirstSet? || step.Reread?
    requires InFlight(Apply(s, step), step.id, game)
    ensures FlightOk(Apply(s, step), Apply(s, step).requests[step.id].phase, game)
  {
    NothingIssued(s, step, game, step.id);
    assert FlightOk(s, s.requests[step.id].phase, game);
    FlightKept(s, Apply(s, step), s.requests[step.id].phase, game);
  }

  /** While a request is in flight nobody else writes the row. */
  lemma OnlyFlightWrites(s: State, step: Step, game: string, id: nat)
    requires Serial(s, game) && Enabled(s, step) && InFlight(s, id, game)
    requires step.Delete? || step.Tick? || step.id != id
    ensures game in Apply(s, step).rows ==> Lookup(Apply(s, step), game) == Lookup(s, game)
  {
    if Writes(s, step, game) {
      assert InFlight(s, step.id, game);
      assert false;
    }
  }

  /** Steps of others, and the environment, leave the request in flight in order. */
  lemma OtherFlightStep(s: State, step: Step, game: string, id: nat)
    requires SerialInv(s, game) && Serial(s, game) && Enabled(s, step) && InFlight(Apply(s, step), id, game)
    requires step.Delete? || step.Tick? || step.id != id
    ensures FlightOk(Apply(s, step), Apply(s, step).requests[id].phase, game)
  {
    OthersUnmoved(s, step, id);
    assert InFlight(s, id, game);
    NothingIssued(s, step, game, id);
    OnlyFlightWrites(s, step, game, id);
    FlightKept(s, Apply(s, step), s.requests[id].phase, game);
  }

  lemma SerialFlightStep(s: State, step: Step, game: string, id: nat)
    requires SerialInv(s, game) && Serial(s, game) && Enabled(s, step)
    requires Serial(Apply(s, step), game) && InFlight(Apply(s, step), id, game)
    requires step.Choose? || step.Draft? ==> step.now == s.clock
    ensures FlightOk(Apply(s, step), Apply(s, step).requests[id].phase, game)
  {
    if step.Delete? || step.Tick? || step.id != id {
      OtherFlightStep(s, step, game, id);
    } else if step.Read? {
      ReadFlightStep(s, step, game);
    } else if step.Choose? || step.Draft? {
      LocalFlightStep(s, step, game);
    } else {
      CommandFlightStep(s, step, game);
    }
  }

  lemma SerialStep(s: State, step: Step, game: string)
    requires SerialInv(s, game) && Serial(s, game) && Enabled(s, step) && Serial(Apply(s, step), game)
    requires step.Choose? || step.Draft? ==> step.now == s.clock
    ensures SerialInv(Apply(s, step), game)
  {
    var s' := Apply(s, step);
    RowsOkStep(s, step);
    CoherentStep(s, step);
    StepFrame(s, step);
    SerialRowStep(s, step, game);
    forall id | InFlight(s', id, game)
      ensures FlightOk(s', s'.requests[id].phase, game)
    {
      SerialFlightStep(s, step, game, id);
    }
    forall id | IsIssued(s', id, game)
      ensures s'.requests[id].phase.placement == s'.requests[id].phase.draft
    {
      if !IsIssued(s, id, game) {
        CompletionReturnsDraft(s, step, game, id);
      }
    }
  }

  lemma {:induction false} SerialInvHolds(tr: seq<State>, st: seq<Step>, game: string, m: nat)
    requires IsRun(tr, st) && SharedClock(tr, st) && tr[0] == INIT && SerialRun(tr, game) && m <= |st|
    ensures SerialInv(tr[m], game)
  {
    if m > 0 {
      SerialInvHolds(tr, st, game, m - 1);
      assert Next(tr[m - 1], st[m - 1], tr[m]);
      SerialStep(tr[m - 1], st[m - 1], game);
    }
  }

  /** The step at which a request gets its placement. */
  lemma {:induction false} CompletionStep(tr: seq<State>, st: seq<Step>, game: string, id: nat, m: nat, n: nat)
    returns (k: nat)
    requires IsRun(tr, st) && m <= n <= |st|
    requires !IsIssued(tr[m], id, game) && IsIssued(tr[n], id, game)
    ensures m <= k < n && !IsIssued(tr[k], id, game) && IsIssued(tr[k + 1], id, game)
    decreases n
  {
    if IsIssued(tr[n - 1], id, game) {
      k := CompletionStep(tr, st, game, id, m, n - 1);
    } else {
      k := n - 1;
    }
  }

  /**
   Serial-run fencing: in every serial run with a shared clock, over expiries, releases and any shard
   tables, a claim that completes later never gets a smaller generation than one completed before.
   */
  lemma SerialGenerationsNondecreasing(
    tr: seq<State>, st: seq<Step>, game: string, a: nat, b: nat, m: nat, n: nat)
    requires IsRun(tr, st) && SharedClock(tr, st) && tr[0] == INIT && SerialRun(tr, game)
    requires m <= n <= |st|
    requires IsIssued(tr[m], a, game) && !IsIssued(tr[m], b, game) && IsIssued(tr[n], b, game)
    ensures tr[m].requests[a].phase.placement.generation <= tr[n].requests[b].phase.placement.generation
  {
    var k := CompletionStep(tr, st, game, b, m, n);
    SerialInvHolds(tr, st, game, k);
    assert Next(tr[k], st[k], tr[k + 1]);
    CompletionReturnsDraft(tr[k], st[k], game, b);
    TerminalStays(tr, st, a, m, k);
    TerminalStays(tr, st, b, k + 1, n);
  }

  /**
   Stickiness: in a serial run, a step that changes the shard of a present row belongs to a request that
   read exactly that row, and in whose snapshot no row of the current shard was eligible. Scores play no
   part, and the generation does not fall.
   */
  lemma SerialStickiness(tr: seq<State>, st: seq<Step>, game: string, j: nat)
    requires IsRun(tr, st) && SharedClock(tr, st) && tr[0] == INIT && SerialRun(tr, game) && j < |st|
    requires game in tr[j].rows && game in tr[j + 1].rows
    requires tr[j].rows[game].shardId != tr[j + 1].rows[game].shardId
    ensures (st[j].FirstSet? || st[j].SecondSet?) && Mine(tr[j], st[j].id, game)
    ensures HasDraft(tr[j].requests[st[j].id].phase)
    ensures var r := tr[j].requests[st[j].id];
            && r.phase.plan.existing == Some(tr[j].rows[game])
            && (forall s :: s in r.phase.plan.shards && s.shardId == tr[j].rows[game].shardId ==>
                  !IsEligible(s, r.required, r.phase.plan.decidedAt))
    ensures tr[j].rows[game].generation <= tr[j + 1].rows[game].generation
  {
    SerialInvHolds(tr, st, game, j);
    assert Next(tr[j], st[j], tr[j + 1]);
    StepFrame(tr[j], st[j]);
    assert Writes(tr[j], st[j], game);
    var r := tr[j].requests[st[j].id];
    assert FlightOk(tr[j], r.phase, game) && RequestCoherent(r) && RequestRowsOk(r, tr[j].clock);
    StickyExactly(r.phase.plan.shards, r.required, r.phase.plan.decidedAt, tr[j].rows[game].shardId);
  }
}
