/**
 The active-game claim protocol: any number of router requests race on the `active_games:*` keys.
 Every Redis command and every local clock read is one atomic step. The clock value a router reads
 and the shard table it scans are parameters of the step, so a run may show a router anything.
 */
module ClaimProtocol {
  import opened Prelude
  import opened Scheduler

  /** One `active_games:<gameId>` row. */
  datatype Placement = Placement(
    gameId: string,
    shardId: string,
    placedAt: nat,
    refreshedAt: nat,
    generation: nat,
    brokerId: Option<string>,
    flyMachineId: Option<string>)

  /** What a request has captured once it has picked a shard. */
  datatype Plan = Plan(
    existing: Option<Placement>,
    shards: seq<ShardRow>,
    decidedAt: nat,
    picked: ShardRow)

  /** The program counter of a request with its captured locals. */
  datatype Phase =
    | Arrived                                                   // before the first GET
    | Looked(seen: Option<Placement>)                           // row read, shards not yet scanned
    | Chosen(plan: Plan)                                        // shard picked, claim not started
    | Claiming(plan: Plan, draft: Placement)                    // before the first SET
    | Refetching(plan: Plan, draft: Placement)                  // first SET refused, before the second GET
    | Superseding(plan: Plan, draft: Placement)                 // before the second SET, always XX
    | Placed(plan: Plan, draft: Placement, placement: Placement)
    | Refused(decision: Decision)
    | Failed                                                    // an I/O error ended the request

  datatype Request = Request(gameId: string, required: nat, phase: Phase)

  datatype State = State(
    rows: map<string, Placement>,
    requests: map<nat, Request>,
    clock: nat)

  datatype Step =
    | Arrive(id: nat, game: string, required: nat)
    | Read(id: nat)
    | Choose(id: nat, shards: seq<ShardRow>, now: nat)
    | Draft(id: nat, now: nat)
    | FirstSet(id: nat, delivered: bool)     // `delivered` is false when the reply is lost
    | Reread(id: nat)
    | SecondSet(id: nat, delivered: bool)
    | Fail(id: nat)
    | Delete(game: string)                   // expiry of the TTL, or a release by the Broker
    | Tick(ms: nat)

  const INIT := State(map[], map[], 0)

  function Lookup(s: State, game: string): Option<Placement> {
    if game in s.rows then Some(s.rows[game]) else None
  }

  function ActiveShard(existing: Option<Placement>): Option<string> {
    if existing.Some? then Some(existing.value.shardId) else None
  }

  /** The pick keeps the shard of the row that was read, so the claim is a refresh (`XX`). */
  predicate IsRefresh(plan: Plan) {
    plan.existing.Some? && plan.existing.value.shardId == plan.picked.shardId
  }

  /** The Fly machine of a shard row, if it names one. */
  function MachineOf(s: ShardRow): Option<string> {
    match s.broker
    case Some(b) => b.flyMachineId
    case None => None
  }

  /** The row a request wants to store, built with the claim's own clock read. */
  function MakeDraft(game: string, plan: Plan, now: nat): Placement {
    var keep := IsRefresh(plan);
    Placement(
      game,
      plan.picked.shardId,
      if keep then plan.existing.value.placedAt else now,
      now,
      if keep then plan.existing.value.generation else now,
      Some(plan.picked.shardId),
      MachineOf(plan.picked))
  }

  /** What a claim for `picked` writes after it read `existing`: every field of the row but its time. */
  ghost predicate WrittenFor(row: Placement, game: string, picked: ShardRow, existing: Option<Placement>) {
    && row.gameId == game
    && row.shardId == picked.shardId
    && row.brokerId == Some(picked.shardId)
    && (picked.broker.Some? ==> row.flyMachineId == picked.broker.value.flyMachineId)
    && (picked.broker.None? ==> row.flyMachineId.None?)
    && if existing.Some? && existing.value.shardId == picked.shardId
       then row.placedAt == existing.value.placedAt && row.generation == existing.value.generation
       else row.placedAt == row.generation == row.refreshedAt
  }

  predicate Terminal(p: Phase) {
    p.Placed? || p.Refused? || p.Failed?
  }

  predicate At(s: State, id: nat, p: Phase -> bool) {
    id in s.requests && p(s.requests[id].phase)
  }

  predicate Enabled(s: State, step: Step) {
    match step
    case Arrive(id, _, _) => id !in s.requests
    case Read(id) => At(s, id, (p: Phase) => p.Arrived?)
    case Choose(id, _, _) => At(s, id, (p: Phase) => p.Looked?)
    case Draft(id, _) => At(s, id, (p: Phase) => p.Chosen?)
    case FirstSet(id, _) => At(s, id, (p: Phase) => p.Claiming?)
    case Reread(id) => At(s, id, (p: Phase) => p.Refetching?)
    case SecondSet(id, _) => At(s, id, (p: Phase) => p.Superseding?)
    case Fail(id) => At(s, id, (p: Phase) => !Terminal(p))
    case Delete(_) => true
    case Tick(_) => true
  }

  function Move(s: State, id: nat, p: Phase): State
    requires id in s.requests
  {
    s.(requests := s.requests[id := s.requests[id].(phase := p)])
  }

  function Store(s: State, row: Placement, game: string): State {
    s.(rows := s.rows[game := row])
  }

  /** Whether the SET of this step takes effect: `NX` wants no row, `XX` wants one. */
  predicate SetApplies(s: State, step: Step)
    requires Enabled(s, step)
  {
    match step
    case FirstSet(id, _) =>
      var r := s.requests[id];
      IsRefresh(r.phase.plan) <==> r.gameId in s.rows
    case SecondSet(id, _) => s.requests[id].gameId in s.rows
    case _ => false
  }

  function Apply(s: State, step: Step): State
    requires Enabled(s, step)
  {
    match step
    case Arrive(id, game, required) =>
      s.(requests := s.requests[id := Request(game, required, Arrived)])
    case Read(id) =>
      Move(s, id, Looked(Lookup(s, s.requests[id].gameId)))
    case Choose(id, shards, now) =>
      var seen := s.requests[id].phase.seen;
      var d := Decide(shards, s.requests[id].required, now, ActiveShard(seen));
      Move(s, id, if d.Place? then Chosen(Plan(seen, shards, now, d.shard)) else Refused(d))
    case Draft(id, now) =>
      var plan := s.requests[id].phase.plan;
      Move(s, id, Claiming(plan, MakeDraft(s.requests[id].gameId, plan, now)))
    case FirstSet(id, delivered) =>
      var r := s.requests[id];
      if SetApplies(s, step) then
        Move(Store(s, r.phase.draft, r.gameId), id,
             if delivered then Placed(r.phase.plan, r.phase.draft, r.phase.draft) else Failed)
      else
        Move(s, id, if delivered then Refetching(r.phase.plan, r.phase.draft) else Failed)
    case Reread(id) =>
      var r := s.requests[id];
      var row := Lookup(s, r.gameId);
      if row.Some? && (row.value.shardId == r.phase.draft.shardId || r.phase.plan.existing.None?) then
        Move(s, id, Placed(r.phase.plan, r.phase.draft, row.value))
      else
        Move(s, id, Superseding(r.phase.plan, r.phase.draft))
    case SecondSet(id, delivered) =>
      var r := s.requests[id];
      var s' := if SetApplies(s, step) then Store(s, r.phase.draft, r.gameId) else s;
      Move(s', id, if delivered then Placed(r.phase.plan, r.phase.draft, r.phase.draft) else Failed)
    case Fail(id) => Move(s, id, Failed)
    case Delete(game) => s.(rows := s.rows - {game})
    case Tick(ms) => s.(clock := s.clock + ms)
  }

  // ----- runs ------------------------------------------------------------------------------

  ghost predicate Next(s: State, step: Step, s': State) {
    Enabled(s, step) && s' == Apply(s, step)
  }

  /** `tr` is the sequence of states that the steps `st` produce, one more state than steps. */
  ghost predicate IsRun(tr: seq<State>, st: seq<Step>) {
    |tr| == |st| + 1 && forall i {:trigger st[i]} :: 0 <= i < |st| ==> Next(tr[i], st[i], tr[i + 1])
  }

  /** All routers read one shared clock. */
  ghost predicate SharedClock(tr: seq<State>, st: seq<Step>)
    requires |tr| == |st| + 1
  {
    forall i {:trigger st[i]} :: 0 <= i < |st| && (st[i].Choose? || st[i].Draft?) ==> st[i].now == tr[i].clock
  }

  /** The row of `game` is not deleted from step `from` up to step `to`. */
  ghost predicate NoDelete(st: seq<Step>, game: string, from: nat, to: nat)
    requires from <= to <= |st|
  {
    forall k :: from <= k < to ==> st[k] != Delete(game)
  }

  /** A request for `game` in the given state. */
  predicate Mine(s: State, id: nat, game: string) {
    id in s.requests && s.requests[id].gameId == game
  }

  /** The row of `game` is written by this step. */
  predicate Writes(s: State, step: Step, game: string)
    requires Enabled(s, step)
  {
    SetApplies(s, step) && s.requests[step.id].gameId == game
  }

  /** A step touches one request and, when it writes, one row. */
  lemma StepFrame(s: State, step: Step)
    requires Enabled(s, step)
    ensures s.requests.Keys <= Apply(s, step).requests.Keys
    ensures forall id :: id in s.requests ==>
              && Apply(s, step).requests[id].gameId == s.requests[id].gameId
              && Apply(s, step).requests[id].required == s.requests[id].required
              && (Terminal(s.requests[id].phase) ==> Apply(s, step).requests[id] == s.requests[id])
    ensures forall game :: !Writes(s, step, game) && step != Delete(game) ==>
              Lookup(Apply(s, step), game) == Lookup(s, game)
    ensures forall game :: Writes(s, step, game) ==>
              Lookup(Apply(s, step), game) == Some(s.requests[step.id].phase.draft)
    ensures s.clock <= Apply(s, step).clock
  {
  }

  /** A finished request keeps its outcome to the end of the run. */
  lemma {:induction false} TerminalStays(tr: seq<State>, st: seq<Step>, id: nat, m: nat, n: nat)
    requires IsRun(tr, st) && m <= n <= |st|
    requires id in tr[m].requests && Terminal(tr[m].requests[id].phase)
    ensures id in tr[n].requests && tr[n].requests[id] == tr[m].requests[id]
    decreases n
  {
    if m < n {
      TerminalStays(tr, st, id, m, n - 1);
      assert Next(tr[n - 1], st[n - 1], tr[n]);
      StepFrame(tr[n - 1], st[n - 1]);
    }
  }

  /** A claim whose reply is lost ends in an error for good, whether or not its SET took effect. */
  lemma LostReplyFails(tr: seq<State>, st: seq<Step>, id: nat, j: nat, n: nat)
    requires IsRun(tr, st) && j < n <= |st|
    requires st[j] in {FirstSet(id, false), SecondSet(id, false), Fail(id)}
    ensures id in tr[n].requests && tr[n].requests[id].phase == Failed
  {
    assert Next(tr[j], st[j], tr[j + 1]);
    TerminalStays(tr, st, id, j + 1, n);
  }

  lemma {:induction false} RequestStays(tr: seq<State>, st: seq<Step>, id: nat, m: nat, n: nat)
    requires IsRun(tr, st) && m <= n <= |st|
    requires id in tr[m].requests
    ensures id in tr[n].requests && tr[n].requests[id].gameId == tr[m].requests[id].gameId
    ensures tr[n].requests[id].required == tr[m].requests[id].required
    decreases n
  {
    if m < n {
      RequestStays(tr, st, id, m, n - 1);
      assert Next(tr[n - 1], st[n - 1], tr[n]);
      StepFrame(tr[n - 1], st[n - 1]);
    }
  }

  // ----- what every reachable state satisfies ----------------------------------------------

  predicate HasPlan(p: Phase) {
    p.Chosen? || p.Claiming? || p.Refetching? || p.Superseding? || p.Placed?
  }

  predicate HasDraft(p: Phase) {
    p.Claiming? || p.Refetching? || p.Superseding? || p.Placed?
  }

  /** The row the request's first GET returned. */
  function FirstRead(p: Phase): Option<Placement>
    requires p.Looked? || HasPlan(p)
  {
    if p.Looked? then p.seen else p.plan.existing
  }

  /** The plan is what the decision procedure gives on the request's own snapshot. */
  predicate PlanOk(plan: Plan, required: nat) {
    Decide(plan.shards, required, plan.decidedAt, ActiveShard(plan.existing)) == Place(plan.picked)
  }

  predicate RequestCoherent(r: Request) {
    && (HasPlan(r.phase) ==> PlanOk(r.phase.plan, r.required))
    && (HasDraft(r.phase) ==> r.phase.draft == MakeDraft(r.gameId, r.phase.plan, r.phase.draft.refreshedAt))
  }

  ghost predicate Coherent(s: State) {
    forall id :: id in s.requests ==> RequestCoherent(s.requests[id])
  }

  lemma CoherentStep(s: State, step: Step)
    requires Coherent(s) && Enabled(s, step)
    ensures Coherent(Apply(s, step))
  {
  }

  lemma {:induction false} CoherentRun(tr: seq<State>, st: seq<Step>, m: nat)
    requires IsRun(tr, st) && m <= |st| && Coherent(tr[0])
    ensures Coherent(tr[m])
  {
    if m > 0 {
      CoherentRun(tr, st, m - 1);
      assert Next(tr[m - 1], st[m - 1], tr[m]);
      CoherentStep(tr[m - 1], st[m - 1]);
    }
  }

  /** The shape of every row the routers store, hold or return. */
  predicate RowOk(row: Placement, game: string, clock: nat) {
    && row.gameId == game
    && row.brokerId == Some(row.shardId)
    && row.placedAt == row.generation
    && row.generation <= row.refreshedAt <= clock
  }

  predicate RequestRowsOk(r: Request, clock: nat) {
    && (r.phase.Looked? && r.phase.seen.Some? ==> RowOk(r.phase.seen.value, r.gameId, clock))
    && (HasPlan(r.phase) && r.phase.plan.existing.Some? ==> RowOk(r.phase.plan.existing.value, r.gameId, clock))
    && (HasDraft(r.phase) ==> RowOk(r.phase.draft, r.gameId, clock))
    && (HasDraft(r.phase) && r.phase.plan.existing.Some? ==>
          r.phase.plan.existing.value.refreshedAt <= r.phase.draft.refreshedAt)
    && (r.phase.Placed? ==> RowOk(r.phase.placement, r.gameId, clock))
  }

  ghost predicate RowsOk(s: State) {
    && (forall game :: game in s.rows ==> RowOk(s.rows[game], game, s.clock))
    && (forall id :: id in s.requests ==> RequestRowsOk(s.requests[id], s.clock))
  }

  lemma RowsOkStep(s: State, step: Step)
    requires RowsOk(s) && Enabled(s, step)
    requires step.Choose? || step.Draft? ==> step.now == s.clock
    ensures RowsOk(Apply(s, step))
  {
  }

  /**
   Reachable-row invariant: with a shared clock, from an empty directory, at every point of every
   interleaving, each stored row, each row held by a request in flight and each returned placement is
   well formed and no newer than the clock.
   */
  lemma {:induction false} ReachableRowsOk(tr: seq<State>, st: seq<Step>, m: nat)
    requires IsRun(tr, st) && SharedClock(tr, st) && tr[0] == INIT && m <= |st|
    ensures RowsOk(tr[m]) && Coherent(tr[m])
  {
    CoherentRun(tr, st, m);
    if m > 0 {
      ReachableRowsOk(tr, st, m - 1);
      assert Next(tr[m - 1], st[m - 1], tr[m]);
      RowsOkStep(tr[m - 1], st[m - 1]);
    }
  }
}
