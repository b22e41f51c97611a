/**
 What the demo's measurements mean, told by the events alone: each completed input spans from its throw to
 the first frame that shows its cube away from where it was thrown, and the state it reports is the first
 one in between that moved the cube.
 */
module InputHistory {
  import opened Prelude
  import opened DemoPerf

  /** The number the event at `a` gives out when it is a throw: one more than the throws before it. */
  function Number(events: seq<Event>, a: nat): nat
    requires a <= |events|
  {
    if a == 0 then 1 else Number(events, a - 1) + if events[a - 1].Throw? then 1 else 0
  }

  /** Further apart than 0.025, on squares. */
  ghost predicate Apart(a: Vec, b: Vec) {
    var dx, dy, dz := a.x - b.x, a.y - b.y, a.z - b.z;
    dx * dx + dy * dy + dz * dz > 0.000625
  }

  /** A state of the server reports the thrown cube away from where it was. */
  ghost predicate Reports(throw: Event, e: Event) {
    throw.Throw? && e.StateRow? && e.id == throw.id && Apart(throw.baseP, e.position)
  }

  /** A rendered frame shows it there. */
  ghost predicate Shows(throw: Event, e: Event) {
    throw.Throw? && e.Rendered? && e.id == throw.id && Apart(throw.baseP, e.position)
  }

  ghost predicate NotShown(events: seq<Event>, a: nat, n: nat)
    requires a < |events| && n <= |events|
  {
    forall b :: a < b < n ==> !Shows(events[a], events[b])
  }

  ghost predicate FirstShown(events: seq<Event>, a: nat, b: nat) {
    a < b < |events| && Shows(events[a], events[b]) && NotShown(events, a, b)
  }

  ghost predicate FirstReported(events: seq<Event>, a: nat, s: nat) {
    a < s < |events| && Reports(events[a], events[s]) && forall k :: a < k < s ==> !Reports(events[a], events[k])
  }

  /** `at` and `tick` are those of the first report before `n`, or missing when there is none. */
  ghost predicate ReportedAs(events: seq<Event>, a: nat, n: nat, at: Option<real>, tick: Option<int>)
    requires a < |events| && n <= |events|
  {
    if at.None? then tick.None? && forall s :: a < s < n ==> !Reports(events[a], events[s])
    else exists s: nat ::
           s < n && FirstReported(events, a, s) && at.value == events[s].receivedAt && tick == events[s].tick
  }

  ghost predicate PendingExplained(events: seq<Event>, a: nat, p: Pending) {
    && a < |events| && events[a].Throw?
    && p.inputSeq == Number(events, a)
    && p.id == events[a].id && p.inputAt == events[a].inputAt && p.sendAt == events[a].sendAt
    && p.baseP == events[a].baseP
    && NotShown(events, a, |events|)
    && ReportedAs(events, a, |events|, p.firstRelevantStateAt, p.firstRelevantTickSeq)
  }

  /** The time from the throw to the report. */
  ghost predicate StateDelay(delay: Option<real>, at: Option<real>, inputAt: real) {
    if at.None? then delay.None? else delay == Some(at.value - inputAt)
  }

  ghost predicate CompletedExplained(events: seq<Event>, a: nat, b: nat, c: Completed) {
    && FirstShown(events, a, b)
    && c.inputSeq == Number(events, a) && c.id == events[a].id
    && c.inputToVisibleMs == events[b].now - events[a].inputAt
    && c.sendToVisibleMs == events[b].now - events[a].sendAt
    && exists at :: StateDelay(c.inputToStateMs, at, events[a].inputAt)
                    && ReportedAs(events, a, b, at, c.firstRelevantTickSeq)
  }

  // ----- one more event -----------------------------------------------------------------------

  lemma {:induction false} NumberKept(events: seq<Event>, more: seq<Event>, a: nat)
    requires a <= |events|
    ensures Number(events + more, a) == Number(events, a)
  {
    if a > 0 {
      NumberKept(events, more, a - 1);
    }
  }

  lemma NotShownKept(events: seq<Event>, more: seq<Event>, a: nat, n: nat)
    requires a < |events| && n <= |events|
    ensures NotShown(events + more, a, n) <==> NotShown(events, a, n)
  {
    assert forall k :: 0 <= k < |events| ==> (events + more)[k] == events[k];
  }

  lemma ReportedKept(events: seq<Event>, more: seq<Event>, a: nat, n: nat, at: Option<real>, tick: Option<int>)
    requires a < |events| && n <= |events| && ReportedAs(events, a, n, at, tick)
    ensures ReportedAs(events + more, a, n, at, tick)
  {
    var all := events + more;
    assert forall k :: 0 <= k < |events| ==> all[k] == events[k];
    if at.Some? {
      var s: nat :| s < n && FirstReported(events, a, s) && at.value == events[s].receivedAt && tick == events[s].tick;
      assert FirstReported(all, a, s);
    }
  }

  /** A further event changes the report only if it is the first one. */
  lemma ReportedSnoc(events: seq<Event>, e: Event, a: nat, at: Option<real>, tick: Option<int>)
    requires a < |events| && ReportedAs(events, a, |events|, at, tick)
    ensures var all := events + [e];
            if at.None? && Reports(events[a], e) then ReportedAs(all, a, |all|, Some(e.receivedAt), e.tick)
            else ReportedAs(all, a, |all|, at, tick)
  {
    var all := events + [e];
    ReportedKept(events, [e], a, |events|, at, tick);
    assert all[a] == events[a] && all[|events|] == e;
    if at.None? && Reports(events[a], e) {
      assert FirstReported(all, a, |events|);
    }
  }

  lemma CompletedKept(events: seq<Event>, e: Event, a: nat, b: nat, c: Completed)
    requires CompletedExplained(events, a, b, c)
    ensures CompletedExplained(events + [e], a, b, c)
  {
    NumberKept(events, [e], a);
    NotShownKept(events, [e], a, b);
    var at :| StateDelay(c.inputToStateMs, at, events[a].inputAt) && ReportedAs(events, a, b, at, c.firstRelevantTickSeq);
    ReportedKept(events, [e], a, b, at, c.firstRelevantTickSeq);
  }

  /** A pending entry stays pending through an event that does not show its cube, marked or not. */
  lemma PendingKept(events: seq<Event>, e: Event, a: nat, p: Pending)
    requires PendingExplained(events, a, p) && !Shows(events[a], e)
    ensures PendingExplained(
              events + [e], a, if e.StateRow? then MarkOne(p, e.id, e.position, e.receivedAt, e.tick) else p)
  {
    var all := events + [e];
    NumberKept(events, [e], a);
    NotShownKept(events, [e], a, |events|);
    ReportedSnoc(events, e, a, p.firstRelevantStateAt, p.firstRelevantTickSeq);
    assert all[a] == events[a] && all[|events|] == e;
  }

  /** And completes with the first event that does. */
  lemma PendingCompletes(events: seq<Event>, e: Event, a: nat, p: Pending)
    requires PendingExplained(events, a, p) && Shows(events[a], e)
    ensures CompletedExplained(events + [e], a, |events|, Complete(p, e.now))
  {
    var all := events + [e];
    NumberKept(events, [e], a);
    NotShownKept(events, [e], a, |events|);
    ReportedKept(events, [e], a, |events|, p.firstRelevantStateAt, p.firstRelevantTickSeq);
    assert all[a] == events[a] && all[|events|] == e;
    assert StateDelay(Complete(p, e.now).inputToStateMs, p.firstRelevantStateAt, all[a].inputAt);
  }

  lemma ThrowExplained(events: seq<Event>, e: Event, p: Pending)
    requires e.Throw? && p == Pending(Number(events, |events|), e.id, e.inputAt, e.sendAt, e.baseP, None, None)
    ensures PendingExplained(events + [e], |events|, p)
  {
    NumberKept(events, [e], |events|);
  }

  // ----- the split of a rendered frame ---------------------------------------------------------

  lemma {:induction false} HiddenMembers(ps: seq<Pending>, id: string, position: Vec)
    ensures forall p :: p in StillHidden(ps, id, position) ==> p in ps && !BecomesVisible(p, id, position)
  {
    if ps != [] {
      HiddenMembers(ps[1..], id, position);
    }
  }

  lemma {:induction false} VisibleMembers(ps: seq<Pending>, id: string, position: Vec, now: real)
    ensures forall c :: c in NowVisible(ps, id, position, now) ==>
              exists p :: p in ps && BecomesVisible(p, id, position) && c == Complete(p, now)
  {
    if ps != [] {
      VisibleMembers(ps[1..], id, position, now);
      forall c | c in NowVisible(ps, id, position, now)
        ensures exists p :: p in ps && BecomesVisible(p, id, position) && c == Complete(p, now)
      {
        if c in NowVisible(ps[1..], id, position, now) {
          var p :| p in ps[1..] && BecomesVisible(p, id, position) && c == Complete(p, now);
          assert p in ps;
        } else {
          assert ps[0] in ps;
        }
      }
    }
  }

  // ----- over whole runs ------------------------------------------------------------------------

  ghost predicate AllPendingExplained(events: seq<Event>, l: Ledger) {
    forall p :: p in l.pending ==> exists a :: PendingExplained(events, a, p)
  }

  ghost predicate AllCompletedExplained(events: seq<Event>, l: Ledger) {
    forall c :: c in l.history ==> exists a, b :: CompletedExplained(events, a, b, c)
  }

  /** What a pending entry was before the event. */
  ghost predicate WasPending(q: Pending, e: Event, p: Pending) {
    && !(e.Rendered? && BecomesVisible(q, e.id, e.position))
    && p == if e.StateRow? then MarkOne(q, e.id, e.position, e.receivedAt, e.tick) else q
  }

  lemma PendingOrigin(l: Ledger, e: Event, p: Pending)
    requires p in Advance(l, e).pending
    ensures (e.Throw? && p == Pending(l.nextSeq, e.id, e.inputAt, e.sendAt, e.baseP, None, None))
            || exists q :: q in l.pending && WasPending(q, e, p)
  {
    match e
    case Throw(_, _, _, _) =>
      assert p in l.pending ==> WasPending(p, e, p);
    case StateRow(id, position, at, tick) =>
      var i :| 0 <= i < |l.pending| && p == MarkOne(l.pending[i], id, position, at, tick);
      assert WasPending(l.pending[i], e, p);
    case Rendered(id, position, _) =>
      HiddenMembers(l.pending, id, position);
      assert WasPending(p, e, p);
  }

  /** One entry that stayed. */
  lemma PendingStays(events: seq<Event>, e: Event, a: nat, q: Pending, p: Pending)
    requires PendingExplained(events, a, q) && WasPending(q, e, p)
    ensures PendingExplained(events + [e], a, p)
  {
    PendingKept(events, e, a, q);
  }

  lemma PendingStep(events: seq<Event>, e: Event, l: Ledger, p: Pending) returns (a: nat)
    requires AllPendingExplained(events, l) && l.nextSeq == Number(events, |events|)
    requires p in Advance(l, e).pending
    ensures PendingExplained(events + [e], a, p)
  {
    PendingOrigin(l, e, p);
    if q :| q in l.pending && WasPending(q, e, p) {
      a :| PendingExplained(events, a, q);
      PendingStays(events, e, a, q, p);
    } else {
      a := |events|;
      ThrowExplained(events, e, p);
    }
  }

  lemma CompletedOrigin(l: Ledger, e: Event, c: Completed)
    requires c in Advance(l, e).history
    ensures c in l.history
            || (e.Rendered?
                && exists p :: p in l.pending && BecomesVisible(p, e.id, e.position) && c == Complete(p, e.now))
  {
    if c !in l.history {
      VisibleMembers(l.pending, e.id, e.position, e.now);
    }
  }

  /** One entry that finished. */
  lemma PendingFinishes(events: seq<Event>, e: Event, a: nat, p: Pending)
    requires PendingExplained(events, a, p) && e.Rendered? && BecomesVisible(p, e.id, e.position)
    ensures CompletedExplained(events + [e], a, |events|, Complete(p, e.now))
  {
    PendingCompletes(events, e, a, p);
  }

  lemma CompletedStep(events: seq<Event>, e: Event, l: Ledger, c: Completed) returns (a: nat, b: nat)
    requires AllPendingExplained(events, l) && AllCompletedExplained(events, l)
    requires c in Advance(l, e).history
    ensures CompletedExplained(events + [e], a, b, c)
  {
    CompletedOrigin(l, e, c);
    if c in l.history {
      a, b :| CompletedExplained(events, a, b, c);
      CompletedKept(events, e, a, b, c);
    } else {
      var p :| p in l.pending && BecomesVisible(p, e.id, e.position) && c == Complete(p, e.now);
      a :| PendingExplained(events, a, p);
      b := |events|;
      PendingFinishes(events, e, a, p);
    }
  }

  /**
   Every entry of the ledger is explained by the events, in every field: a pending one by its throw, not shown
   since; a completed one by its throw and the first frame that showed it, the times being the differences.
   */
  lemma {:induction false} EntriesExplained(events: seq<Event>)
    ensures AllPendingExplained(events, Run(events)) && AllCompletedExplained(events, Run(events))
    ensures Run(events).nextSeq == Number(events, |events|)
  {
    if events != [] {
      var front, e := Drop1(events), Last(events);
      EntriesExplained(front);
      assert events == front + [e];
      forall p | p in Run(events).pending
        ensures exists a :: PendingExplained(events, a, p)
      {
        var a := PendingStep(front, e, Run(front), p);
      }
      forall c | c in Run(events).history
        ensures exists a, b :: CompletedExplained(events, a, b, c)
      {
        var a, b := CompletedStep(front, e, Run(front), c);
      }
      NumberKept(front, [e], |front|);
    }
  }

  lemma {:induction false} NumberGrows(events: seq<Event>, a: nat, b: nat)
    requires a < b <= |events|
    ensures 1 <= Number(events, a) <= Number(events, b)
    ensures events[a].Throw? ==> Number(events, a) < Number(events, b)
    decreases b
  {
    if a + 1 < b {
      NumberGrows(events, a, b - 1);
    } else {
      NumberPositive(events, a);
    }
  }

  lemma {:induction false} NumberPositive(events: seq<Event>, a: nat)
    requires a <= |events|
    ensures 1 <= Number(events, a)
  {
    if a > 0 {
      NumberPositive(events, a - 1);
    }
  }

  lemma SameThrow(events: seq<Event>, a: nat, b: nat)
    requires a < |events| && b < |events| && events[a].Throw? && events[b].Throw?
    requires Number(events, a) == Number(events, b)
    ensures a == b
  {
    if a < b {
      NumberGrows(events, a, b);
    } else if b < a {
      NumberGrows(events, b, a);
    }
  }

  lemma {:induction false} CountedPending(ps: seq<Pending>, k: nat)
    ensures PendingCount(ps, k) > 0 ==> exists p :: p in ps && p.inputSeq == k
  {
    if ps != [] && ps[0].inputSeq != k {
      CountedPending(ps[1..], k);
      assert ps == [ps[0]] + ps[1..];
    } else if ps != [] {
      assert ps[0] in ps;
    }
  }

  lemma {:induction false} CountedCompleted(cs: seq<Completed>, k: nat)
    ensures CompletedCount(cs, k) > 0 ==> exists c :: c in cs && c.inputSeq == k
  {
    if cs != [] && cs[0].inputSeq != k {
      CountedCompleted(cs[1..], k);
      assert cs == [cs[0]] + cs[1..];
    } else if cs != [] {
      assert cs[0] in cs;
    }
  }

  /**
   What became of every throw, exactly: it is still pending if and only if no frame has shown its cube away
   from where it was thrown, and otherwise completed with the first such frame; the entry says so field by field.
   */
  lemma ThrowsExplained(events: seq<Event>, a: nat)
    requires a < |events| && events[a].Throw?
    ensures NotShown(events, a, |events|) <==> exists p :: p in Run(events).pending && PendingExplained(events, a, p)
    ensures !NotShown(events, a, |events|) <==>
              exists b, c :: c in Run(events).history && CompletedExplained(events, a, b, c)
  {
    var l, k := Run(events), Number(events, a);
    EntriesExplained(events);
    NumberGrows(events, a, |events|);
    InputsConserved(events, k);
    if PendingCount(l.pending, k) > 0 {
      CountedPending(l.pending, k);
      var p :| p in l.pending && p.inputSeq == k;
      var a' :| PendingExplained(events, a', p);
      SameThrow(events, a, a');
    } else {
      CountedCompleted(l.history, k);
      var c :| c in l.history && c.inputSeq == k;
      var a', b :| CompletedExplained(events, a', b, c);
      SameThrow(events, a, a');
    }
  }
}
