/**
 The demo client's bookkeeping: gaps in the server's tick numbers, and thrown inputs from the click until
 their cube visibly moves.
 */
module DemoPerf {
  import opened Prelude

  // ----- tick gaps ----------------------------------------------------------------------------

  datatype TickLog = TickLog(last: Option<int>, gaps: int)

  /** One state frame; `t` is None when the frame carries no numeric tick. */
  function TickStep(log: TickLog, t: Option<int>): TickLog {
    if t.None? then log
    else TickLog(t, log.gaps + if log.last.Some? && t.value > log.last.value + 1 then t.value - log.last.value - 1 else 0)
  }

  function TickRun(stream: seq<Option<int>>): TickLog {
    if stream == [] then TickLog(None, 0) else TickStep(TickRun(Drop1(stream)), Last(stream))
  }

  function Ticks(stream: seq<Option<int>>): seq<int> {
    if stream == [] then []
    else if Last(stream).Some? then Ticks(Drop1(stream)) + [Last(stream).value]
    else Ticks(Drop1(stream))
  }

  /** How far repeated or earlier ticks fall short of advancing by one. */
  function Backtrack(ts: seq<int>): nat {
    if |ts| <= 1 then 0
    else
      var d := ts[|ts| - 1] - ts[|ts| - 2];
      Backtrack(Drop1(ts)) + if d < 1 then 1 - d else 0
  }

  ghost predicate StrictlyIncreasing(ts: seq<int>) {
    forall i :: 0 < i < |ts| ==> ts[i - 1] < ts[i]
  }

  lemma {:induction false} BacktrackZero(ts: seq<int>)
    ensures Backtrack(ts) == 0 <==> StrictlyIncreasing(ts)
  {
    if |ts| > 1 {
      BacktrackZero(Drop1(ts));
      if StrictlyIncreasing(Drop1(ts)) && ts[|ts| - 2] < ts[|ts| - 1] {
        assert forall i :: 0 < i < |ts| - 1 ==> Drop1(ts)[i - 1] < Drop1(ts)[i];
      }
      assert StrictlyIncreasing(ts) ==> StrictlyIncreasing(Drop1(ts));
    }
  }

  lemma {:induction false} TickAccounting(stream: seq<Option<int>>)
    ensures var ts, log := Ticks(stream), TickRun(stream);
            && (log.last.None? <==> ts == [])
            && (ts != [] ==> log.last == Some(Last(ts)))
            && (ts == [] ==> log.gaps == 0)
            && (ts != [] ==> |ts| + log.gaps == Last(ts) - ts[0] + 1 + Backtrack(ts))
  {
    if stream != [] {
      TickAccounting(Drop1(stream));
      if Last(stream).Some? && Ticks(Drop1(stream)) != [] {
        assert Drop1(Ticks(stream)) == Ticks(Drop1(stream));
      }
    }
  }

  /**
   Tick conservation, exactly: over any stream, the numbered frames received plus the counted gaps make up
   the span from the first to the last tick if and only if the tick numbers strictly increase.
   */
  lemma TicksConserved(stream: seq<Option<int>>)
    requires Ticks(stream) != []
    ensures var ts := Ticks(stream);
            |ts| + TickRun(stream).gaps == Last(ts) - ts[0] + 1 <==> StrictlyIncreasing(ts)
  {
    TickAccounting(stream);
    BacktrackZero(Ticks(stream));
  }

  // ----- inputs ---------------------------------------------------------------------------------

  const MOTION_EPSILON := 0.025
  const COMPLETED_MAX := 60

  datatype Vec = Vec(x: real, y: real, z: real)

  /** `a.distanceTo(b) > MOTION_EPSILON`, on squares. */
  predicate Moved(a: Vec, b: Vec) {
    (a.x - b.x) * (a.x - b.x) + (a.y - b.y) * (a.y - b.y) + (a.z - b.z) * (a.z - b.z) > MOTION_EPSILON * MOTION_EPSILON
  }

  datatype Pending = Pending(
    inputSeq: nat, id: string, inputAt: real, sendAt: real, baseP: Vec,
    firstRelevantStateAt: Option<real>, firstRelevantTickSeq: Option<int>)

  datatype Completed = Completed(
    inputSeq: nat, id: string, inputToStateMs: Option<real>, inputToVisibleMs: real, sendToVisibleMs: real,
    firstRelevantTickSeq: Option<int>)

  function Complete(p: Pending, now: real): Completed {
    Completed(
      p.inputSeq, p.id,
      if p.firstRelevantStateAt.None? then None else Some(p.firstRelevantStateAt.value - p.inputAt),
      now - p.inputAt, now - p.sendAt, p.firstRelevantTickSeq)
  }

  /** Everything that ever happened to inputs: still pending, and completed in order. */
  datatype Ledger = Ledger(nextSeq: nat, pending: seq<Pending>, history: seq<Completed>)

  datatype Event =
    | Throw(id: string, inputAt: real, sendAt: real, baseP: Vec)
    | StateRow(id: string, position: Vec, receivedAt: real, tick: Option<int>)
    | Rendered(id: string, position: Vec, now: real)

  predicate BecomesVisible(p: Pending, id: string, position: Vec) {
    p.id == id && Moved(p.baseP, position)
  }

  function MarkOne(p: Pending, id: string, position: Vec, at: real, tick: Option<int>): Pending {
    if p.id != id || p.firstRelevantStateAt.Some? || !Moved(p.baseP, position) then p
    else p.(firstRelevantStateAt := Some(at), firstRelevantTickSeq := tick)
  }

  function MarkAll(ps: seq<Pending>, id: string, position: Vec, at: real, tick: Option<int>): seq<Pending> {
    seq(|ps|, i requires 0 <= i < |ps| => MarkOne(ps[i], id, position, at, tick))
  }

  function StillHidden(ps: seq<Pending>, id: string, position: Vec): seq<Pending> {
    if ps == [] then []
    else if BecomesVisible(ps[0], id, position) then StillHidden(ps[1..], id, position)
    else [ps[0]] + StillHidden(ps[1..], id, position)
  }

  function NowVisible(ps: seq<Pending>, id: string, position: Vec, now: real): seq<Completed> {
    if ps == [] then []
    else if BecomesVisible(ps[0], id, position) then [Complete(ps[0], now)] + NowVisible(ps[1..], id, position, now)
    else NowVisible(ps[1..], id, position, now)
  }

  function Advance(l: Ledger, e: Event): Ledger {
    match e
    case Throw(id, inputAt, sendAt, baseP) =>
      Ledger(l.nextSeq + 1, l.pending + [Pending(l.nextSeq, id, inputAt, sendAt, baseP, None, None)], l.history)
    case StateRow(id, position, at, tick) =>
      l.(pending := MarkAll(l.pending, id, position, at, tick))
    case Rendered(id, position, now) =>
      Ledger(l.nextSeq, StillHidden(l.pending, id, position), l.history + NowVisible(l.pending, id, position, now))
  }

  function Run(events: seq<Event>): Ledger {
    if events == [] then Ledger(1, [], []) else Advance(Run(Drop1(events)), Last(events))
  }

  // ----- the mutable client ---------------------------------------------------------------------

  class Perf {
    var nextInputSeq: nat
    var pendingInputs: seq<Pending>      // a JavaScript Map, in insertion order
    var completedInputs: seq<Completed>
    var lastTickSeq: Option<int>
    var tickGaps: int
    var stateFrames: nat
    ghost var history: seq<Completed>    // every completion, including those dropped from the window

    ghost predicate Valid()
      reads this
    {
      completedInputs == LastN(history, COMPLETED_MAX)
    }

    ghost function Abstract(): Ledger
      reads this
    {
      Ledger(nextInputSeq, pendingInputs, history)
    }

    constructor ()
      ensures Valid() && Abstract() == Run([])
      ensures TickLog(lastTickSeq, tickGaps) == TickRun([]) && stateFrames == 0
    {
      nextInputSeq, pendingInputs, completedInputs, history := 1, [], [], [];
      lastTickSeq, tickGaps, stateFrames := None, 0, 0;
    }

    method OnStateTick(t: Option<int>)
      modifies this`lastTickSeq, this`tickGaps, this`stateFrames
      ensures TickLog(lastTickSeq, tickGaps) == TickStep(TickLog(old(lastTickSeq), old(tickGaps)), t)
      ensures stateFrames == old(stateFrames) + 1
    {
      stateFrames := stateFrames + 1;
      if t.Some? {
        if lastTickSeq.Some? && t.value > lastTickSeq.value + 1 {
          tickGaps := tickGaps + t.value - lastTickSeq.value - 1;
        }
        lastTickSeq := t;
      }
    }

    method ThrowInput(id: string, inputAt: real, sendAt: real, baseP: Vec)
      requires Valid()
      modifies this`nextInputSeq, this`pendingInputs
      ensures Valid() && Abstract() == Advance(old(Abstract()), Throw(id, inputAt, sendAt, baseP))
    {
      var inputSeq := nextInputSeq;
      nextInputSeq := nextInputSeq + 1;
      pendingInputs := pendingInputs + [Pending(inputSeq, id, inputAt, sendAt, baseP, None, None)];
    }

    method MarkRelevantState(id: string, nextP: Vec, receivedAt: real, tickSeq: Option<int>)
      requires Valid()
      modifies this`pendingInputs
      ensures Valid() && Abstract() == Advance(old(Abstract()), StateRow(id, nextP, receivedAt, tickSeq))
    {
      for i := 0 to |pendingInputs|
        invariant |pendingInputs| == |old(pendingInputs)|
        invariant pendingInputs[..i] == MarkAll(old(pendingInputs), id, nextP, receivedAt, tickSeq)[..i]
        invariant pendingInputs[i..] == old(pendingInputs)[i..]
      {
        var pending := pendingInputs[i];
        assert pending == old(pendingInputs)[i];
        if pending.id == id && pending.firstRelevantStateAt.None? && Moved(pending.baseP, nextP) {
          pendingInputs := pendingInputs[i :=
            pending.(firstRelevantStateAt := Some(receivedAt), firstRelevantTickSeq := tickSeq)];
        }
      }
    }

    /** One finished input leaves the map and enters the bounded list. */
    method CompleteAt(i: nat, now: real)
      requires Valid() && i < |pendingInputs|
      modifies this`pendingInputs, this`completedInputs, this`history
      ensures Valid() && history == old(history) + [Complete(old(pendingInputs)[i], now)]
      ensures pendingInputs == old(pendingInputs)[..i] + old(pendingInputs)[i + 1..]
    {
      var completed := Complete(pendingInputs[i], now);
      pendingInputs := pendingInputs[..i] + pendingInputs[i + 1..];
      completedInputs := completedInputs + [completed];
      if |completedInputs| > COMPLETED_MAX {
        completedInputs := completedInputs[1..];
      }
      LastNGrows(history, completed, COMPLETED_MAX);
      history := history + [completed];
    }

    /** Deletes finished entries while walking the map, as the client does. */
    method MarkVisibleMotion(id: string, renderP: Vec, now: real)
      requires Valid()
      modifies this`pendingInputs, this`completedInputs, this`history
      ensures Valid() && Abstract() == Advance(old(Abstract()), Rendered(id, renderP, now))
      ensures completedInputs == LastN(history, 60)
    {
      var i := 0;
      ghost var all, done := pendingInputs, 0;
      ghost var hidden, visible := [], [];
      while i < |pendingInputs|
        invariant Valid() && i == |hidden|
        invariant Walked(all, done, id, renderP, now, hidden, visible)
        invariant pendingInputs == hidden + all[done..]
        invariant history == old(history) + visible
        decreases |all| - done
      {
        assert pendingInputs[i] == all[done];
        WalkOn(all, done, id, renderP, now, hidden, visible);
        if BecomesVisible(pendingInputs[i], id, renderP) {
          DropBetween(hidden, all, done);
          CompleteAt(i, now);
          visible := visible + [Complete(all[done], now)];
        } else {
          KeepBetween(hidden, all, done);
          hidden := hidden + [all[done]];
          i := i + 1;
        }
        done := done + 1;
      }
      assert all[..done] == all;
    }
  }

  lemma KeepBetween<T>(front: seq<T>, all: seq<T>, n: nat)
    requires n < |all|
    ensures front + all[n..] == (front + [all[n]]) + all[n + 1..]
  {
    assert all[n..] == [all[n]] + all[n + 1..];
  }

  lemma DropBetween<T>(front: seq<T>, all: seq<T>, n: nat)
    requires n < |all|
    ensures var xs := front + all[n..]; xs[..|front|] + xs[|front| + 1..] == front + all[n + 1..]
  {
  }

  /** Pushing and dropping the first keeps the last `max`. */
  lemma LastNGrows<T>(xs: seq<T>, x: T, max: nat)
    ensures var longer := LastN(xs, max) + [x];
            LastN(xs + [x], max) == if |longer| > max then longer[1..] else longer
  {
  }

  /** What a walk over the first `done` entries has kept and completed. */
  ghost predicate Walked(
    all: seq<Pending>, done: nat, id: string, position: Vec, now: real,
    hidden: seq<Pending>, visible: seq<Completed>)
  {
    && done <= |all|
    && hidden == StillHidden(all[..done], id, position)
    && visible == NowVisible(all[..done], id, position, now)
  }

  lemma WalkOn(
    all: seq<Pending>, done: nat, id: string, position: Vec, now: real,
    hidden: seq<Pending>, visible: seq<Completed>)
    requires Walked(all, done, id, position, now, hidden, visible) && done < |all|
    ensures if BecomesVisible(all[done], id, position)
            then Walked(all, done + 1, id, position, now, hidden, visible + [Complete(all[done], now)])
            else Walked(all, done + 1, id, position, now, hidden + [all[done]], visible)
  {
    WalkOne(all, done, id, position, now);
  }

  lemma {:induction false} WalkOne(ps: seq<Pending>, n: nat, id: string, position: Vec, now: real)
    requires n < |ps|
    ensures StillHidden(ps[..n + 1], id, position)
            == StillHidden(ps[..n], id, position) + if BecomesVisible(ps[n], id, position) then [] else [ps[n]]
    ensures NowVisible(ps[..n + 1], id, position, now)
            == NowVisible(ps[..n], id, position, now)
               + if BecomesVisible(ps[n], id, position) then [Complete(ps[n], now)] else []
  {
    if n > 0 {
      WalkOne(ps[1..], n - 1, id, position, now);
      assert ps[..n + 1][1..] == ps[1..][..n] && ps[..n][1..] == ps[1..][..n - 1];
    } else {
      assert ps[..1][1..] == [];
    }
  }

  // ----- conservation -----------------------------------------------------------------------------

  /** How often an input number is pending. */
  function PendingCount(ps: seq<Pending>, k: nat): nat {
    if ps == [] then 0 else (if ps[0].inputSeq == k then 1 else 0) + PendingCount(ps[1..], k)
  }

  /** How often an input number was completed. */
  function CompletedCount(cs: seq<Completed>, k: nat): nat {
    if cs == [] then 0 else (if cs[0].inputSeq == k then 1 else 0) + CompletedCount(cs[1..], k)
  }

  /** Pending and completed inputs together are each issued number exactly once. */
  ghost predicate Balanced(l: Ledger, k: nat) {
    1 <= l.nextSeq && PendingCount(l.pending, k) + CompletedCount(l.history, k) == if 1 <= k < l.nextSeq then 1 else 0
  }

  lemma {:induction false} SplitKeepsCount(ps: seq<Pending>, id: string, position: Vec, now: real, k: nat)
    ensures PendingCount(StillHidden(ps, id, position), k) + CompletedCount(NowVisible(ps, id, position, now), k)
            == PendingCount(ps, k)
  {
    if ps != [] {
      SplitKeepsCount(ps[1..], id, position, now, k);
    }
  }

  lemma {:induction false} PendingCountSnoc(ps: seq<Pending>, p: Pending, k: nat)
    ensures PendingCount(ps + [p], k) == PendingCount(ps, k) + if p.inputSeq == k then 1 else 0
  {
    if ps != [] {
      PendingCountSnoc(ps[1..], p, k);
      assert (ps + [p])[1..] == ps[1..] + [p];
    }
  }

  lemma {:induction false} CompletedCountConcat(a: seq<Completed>, b: seq<Completed>, k: nat)
    ensures CompletedCount(a + b, k) == CompletedCount(a, k) + CompletedCount(b, k)
  {
    if a == [] {
      assert a + b == b;
    } else {
      CompletedCountConcat(a[1..], b, k);
      assert (a + b)[1..] == a[1..] + b;
    }
  }

  lemma {:induction false} MarkKeepsCount(
    ps: seq<Pending>, id: string, position: Vec, at: real, tick: Option<int>, k: nat)
    ensures PendingCount(MarkAll(ps, id, position, at, tick), k) == PendingCount(ps, k)
  {
    if ps != [] {
      MarkKeepsCount(ps[1..], id, position, at, tick, k);
      assert MarkAll(ps, id, position, at, tick)[1..] == MarkAll(ps[1..], id, position, at, tick);
    }
  }

  lemma AdvanceKeepsBalance(l: Ledger, e: Event, k: nat)
    requires Balanced(l, k)
    ensures Balanced(Advance(l, e), k)
  {
    match e
    case Throw(id, inputAt, sendAt, baseP) =>
      PendingCountSnoc(l.pending, Pending(l.nextSeq, id, inputAt, sendAt, baseP, None, None), k);
    case StateRow(id, position, at, tick) =>
      MarkKeepsCount(l.pending, id, position, at, tick, k);
    case Rendered(id, position, now) =>
      SplitKeepsCount(l.pending, id, position, now, k);
      CompletedCountConcat(l.history, NowVisible(l.pending, id, position, now), k);
  }

  /**
   Input conservation: over every run, each issued input number is either pending or was completed, never
   both and exactly once, and no other number appears.
   */
  lemma {:induction false} InputsConserved(events: seq<Event>, k: nat)
    ensures var l := Run(events);
            && 1 <= l.nextSeq
            && PendingCount(l.pending, k) + CompletedCount(l.history, k) == if 1 <= k < l.nextSeq then 1 else 0
  {
    if events != [] {
      InputsConserved(Drop1(events), k);
      AdvanceKeepsBalance(Run(Drop1(events)), Last(events), k);
    }
  }
}
