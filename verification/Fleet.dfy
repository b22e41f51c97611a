/**
 Whole sequences of new-game placements on one fleet: every accepted placement raises the chosen shard's
 reported count by one before the next, and the other gates stay as they are.
 */
module Fleet {
  import opened Prelude
  import opened Scheduler

  // ----- one placement ----------------------------------------------------------------------

  /** Index of the earliest eligible row of minimal score. */
  function BestIndex(t: seq<ShardRow>, required: nat, now: nat): (r: Option<nat>)
    ensures r.Some? ==> r.value < |t| && IsEligible(t[r.value], required, now)
  {
    if t == [] then None
    else
      var b := BestIndex(Drop1(t), required, now);
      if IsEligible(Last(t), required, now) && (b.Some? ==> Score(Last(t)) < Score(t[b.value])) then Some(|t| - 1)
      else b
  }

  /** The index is the one the router's decision picks for a game without an active shard. */
  lemma {:induction false} BestIndexIsDecision(t: seq<ShardRow>, required: nat, now: nat)
    ensures BestIndex(t, required, now).Some? <==> EligibleRows(t, required, now) != []
    ensures var b := BestIndex(t, required, now);
            b.Some? ==> Best(EligibleRows(t, required, now)) == t[b.value]
                        && Decide(t, required, now, None) == Place(t[b.value])
  {
    if t != [] {
      BestIndexIsDecision(Drop1(t), required, now);
      var e := EligibleRows(t, required, now);
      if IsEligible(Last(t), required, now) {
        assert Drop1(e) == EligibleRows(Drop1(t), required, now);
      }
    }
  }

  lemma {:induction false} BestIndexMinimal(t: seq<ShardRow>, required: nat, now: nat)
    ensures BestIndex(t, required, now).None? <==> forall j :: 0 <= j < |t| ==> !IsEligible(t[j], required, now)
    ensures var b := BestIndex(t, required, now);
            b.Some? ==> forall j :: 0 <= j < |t| && IsEligible(t[j], required, now) ==>
              Score(t[b.value]) <= Score(t[j]) && (j < b.value ==> Score(t[b.value]) < Score(t[j]))
  {
    if t != [] {
      BestIndexMinimal(Drop1(t), required, now);
    }
  }

  /** The reported count goes up by one, in whichever field is reported. */
  function Bump(s: ShardRow): ShardRow {
    if s.currentGameCount.Some? then s.(currentGameCount := Some(s.currentGameCount.value + 1))
    else s.(activeGames := s.activeGames + 1)
  }

  function PlaceOne(t: seq<ShardRow>, required: nat, now: nat): (t': seq<ShardRow>)
    ensures |t'| == |t|
  {
    var b := BestIndex(t, required, now);
    if b.None? then t else t[b.value := Bump(t[b.value])]
  }

  /** The table after `n` requests for new games; refused requests leave it as it is. */
  function Fill(t: seq<ShardRow>, required: nat, now: nat, n: nat): (t': seq<ShardRow>)
    ensures |t'| == |t|
  {
    if n == 0 then t else PlaceOne(Fill(t, required, now, n - 1), required, now)
  }

  /** Whether the request after the first `n` is accepted. */
  predicate Accepts(t: seq<ShardRow>, required: nat, now: nat, n: nat) {
    Decide(Fill(t, required, now, n), required, now, None).Place?
  }

  // ----- capacity ---------------------------------------------------------------------------

  function FreeSlots(s: ShardRow, required: nat, now: nat): nat {
    if PassesOtherGates(s, required, now) && s.maxGames.Some? then SaturatingSub(s.maxGames.value, GameCount(s)) else 0
  }

  /** A quantity summed over the rows of a table. */
  function Sum(t: seq<ShardRow>, f: ShardRow -> nat): nat {
    if t == [] then 0 else Sum(Drop1(t), f) + f(Last(t))
  }

  lemma {:induction false} SumUpdate(t: seq<ShardRow>, f: ShardRow -> nat, i: nat, s: ShardRow)
    requires i < |t|
    ensures Sum(t[i := s], f) + f(t[i]) == Sum(t, f) + f(s)
  {
    if i == |t| - 1 {
      assert Drop1(t[i := s]) == Drop1(t);
    } else {
      SumUpdate(Drop1(t), f, i, s);
      assert Drop1(t[i := s]) == Drop1(t)[i := s];
    }
  }

  lemma {:induction false} SumPositive(t: seq<ShardRow>, f: ShardRow -> nat)
    ensures Sum(t, f) > 0 <==> exists i :: 0 <= i < |t| && f(t[i]) > 0
  {
    if t != [] {
      SumPositive(Drop1(t), f);
      assert t[|t| - 1] == Last(t);
      assert forall i :: 0 <= i < |t| - 1 ==> t[i] == Drop1(t)[i];
    }
  }

  /** The free slots of a row, for a given request. */
  function FreeFor(required: nat, now: nat): ShardRow -> nat {
    s => FreeSlots(s, required, now)
  }

  function TotalFree(t: seq<ShardRow>, required: nat, now: nat): nat {
    Sum(t, FreeFor(required, now))
  }

  /** Some otherwise eligible row has no cap. */
  ghost predicate HasUncapped(t: seq<ShardRow>, required: nat, now: nat) {
    exists i :: 0 <= i < |t| && PassesOtherGates(t[i], required, now) && t[i].maxGames.None?
  }

  /** Only counts have changed. */
  ghost predicate SameExceptCounts(a: seq<ShardRow>, b: seq<ShardRow>) {
    |a| == |b| && forall i :: 0 <= i < |a| ==>
      a[i].(activeGames := 0, currentGameCount := None) == b[i].(activeGames := 0, currentGameCount := None)
  }

  lemma {:induction false} FillKeepsGates(t: seq<ShardRow>, required: nat, now: nat, n: nat)
    ensures SameExceptCounts(t, Fill(t, required, now, n))
  {
    if n > 0 {
      FillKeepsGates(t, required, now, n - 1);
    }
  }

  lemma AcceptsExactly(t: seq<ShardRow>, required: nat, now: nat)
    ensures BestIndex(t, required, now).Some? <==> HasUncapped(t, required, now) || TotalFree(t, required, now) > 0
    ensures Decide(t, required, now, None).Place? <==> BestIndex(t, required, now).Some?
  {
    BestIndexIsDecision(t, required, now);
    BestIndexMinimal(t, required, now);
    SumPositive(t, FreeFor(required, now));
    assert forall i :: 0 <= i < |t| ==> FreeFor(required, now)(t[i]) == FreeSlots(t[i], required, now);
  }

  /** One request uses one free slot, if there is one. */
  lemma PlaceOneUsesSlot(t: seq<ShardRow>, required: nat, now: nat)
    requires !HasUncapped(t, required, now)
    ensures TotalFree(PlaceOne(t, required, now), required, now) == SaturatingSub(TotalFree(t, required, now), 1)
  {
    AcceptsExactly(t, required, now);
    var b := BestIndex(t, required, now);
    if b.Some? {
      assert t[b.value].maxGames.Some?;
      SumUpdate(t, FreeFor(required, now), b.value, Bump(t[b.value]));
    }
  }

  lemma FillKeepsCapped(t: seq<ShardRow>, required: nat, now: nat, n: nat)
    ensures HasUncapped(Fill(t, required, now, n), required, now) <==> HasUncapped(t, required, now)
    ensures forall i :: 0 <= i < |t| ==> Fill(t, required, now, n)[i].maxGames == t[i].maxGames
  {
    var u := Fill(t, required, now, n);
    FillKeepsGates(t, required, now, n);
    assert forall i :: 0 <= i < |t| ==>
        u[i].maxGames == t[i].maxGames
        && (PassesOtherGates(u[i], required, now) <==> PassesOtherGates(t[i], required, now));
  }

  lemma {:induction false} FreeSlotsDrop(t: seq<ShardRow>, required: nat, now: nat, n: nat)
    requires !HasUncapped(t, required, now)
    ensures TotalFree(Fill(t, required, now, n), required, now) == SaturatingSub(TotalFree(t, required, now), n)
  {
    if n > 0 {
      FreeSlotsDrop(t, required, now, n - 1);
      FillKeepsCapped(t, required, now, n - 1);
      PlaceOneUsesSlot(Fill(t, required, now, n - 1), required, now);
    }
  }

  /** No capped shard is filled past its cap, whatever else is in the fleet. */
  lemma {:induction false} NeverOverfilled(t: seq<ShardRow>, required: nat, now: nat, n: nat, i: nat)
    requires i < |t| && t[i].maxGames.Some? && GameCount(t[i]) <= t[i].maxGames.value
    ensures GameCount(Fill(t, required, now, n)[i]) <= t[i].maxGames.value
  {
    if n > 0 {
      NeverOverfilled(t, required, now, n - 1, i);
      FillKeepsCapped(t, required, now, n - 1);
    }
  }

  /**
   Fleet capacity conservation: without uncapped candidates the free slots drop by exactly one per
   acceptance, the request numbered `n` (from 0) is accepted exactly when `n` is below the initial number
   of free slots, and no shard is ever filled past its cap.
   */
  lemma CapacityConserved(t: seq<ShardRow>, required: nat, now: nat, n: nat)
    requires !HasUncapped(t, required, now)
    ensures TotalFree(Fill(t, required, now, n), required, now) == SaturatingSub(TotalFree(t, required, now), n)
    ensures Accepts(t, required, now, n) <==> n < TotalFree(t, required, now)
    ensures forall i :: 0 <= i < |t| && t[i].maxGames.Some? && GameCount(t[i]) <= t[i].maxGames.value ==>
              GameCount(Fill(t, required, now, n)[i]) <= t[i].maxGames.value
  {
    forall i | 0 <= i < |t| && t[i].maxGames.Some? && GameCount(t[i]) <= t[i].maxGames.value
      ensures GameCount(Fill(t, required, now, n)[i]) <= t[i].maxGames.value
    {
      NeverOverfilled(t, required, now, n, i);
    }
    FreeSlotsDrop(t, required, now, n);
    FillKeepsCapped(t, required, now, n);
    AcceptsExactly(Fill(t, required, now, n), required, now);
  }

  /** With an uncapped candidate nothing is ever refused. */
  lemma UncappedNeverRefuses(t: seq<ShardRow>, required: nat, now: nat, n: nat)
    requires HasUncapped(t, required, now)
    ensures Accepts(t, required, now, n)
  {
    FillKeepsGates(t, required, now, n);
    var u := Fill(t, required, now, n);
    var i :| 0 <= i < |t| && PassesOtherGates(t[i], required, now) && t[i].maxGames.None?;
    assert PassesOtherGates(u[i], required, now) && u[i].maxGames.None?;
    AcceptsExactly(u, required, now);
  }

  function TotalGames(t: seq<ShardRow>): nat {
    Sum(t, GameCount)
  }

  lemma PlaceOneAddsGame(t: seq<ShardRow>, required: nat, now: nat)
    ensures TotalGames(PlaceOne(t, required, now))
            == TotalGames(t) + if BestIndex(t, required, now).Some? then 1 else 0
  {
    var b := BestIndex(t, required, now);
    if b.Some? {
      SumUpdate(t, GameCount, b.value, Bump(t[b.value]));
    }
  }

  lemma PicksWhileFree(t: seq<ShardRow>, required: nat, now: nat, n: nat)
    ensures BestIndex(Fill(t, required, now, n), required, now).Some?
            <==> HasUncapped(t, required, now) || n < TotalFree(t, required, now)
  {
    FillKeepsCapped(t, required, now, n);
    AcceptsExactly(Fill(t, required, now, n), required, now);
    if !HasUncapped(t, required, now) {
      FreeSlotsDrop(t, required, now, n);
    }
  }

  lemma FillAddsGame(t: seq<ShardRow>, required: nat, now: nat, n: nat)
    ensures TotalGames(Fill(t, required, now, n + 1))
            == TotalGames(Fill(t, required, now, n))
               + if HasUncapped(t, required, now) || n < TotalFree(t, required, now) then 1 else 0
  {
    PicksWhileFree(t, required, now, n);
    PlaceOneAddsGame(Fill(t, required, now, n), required, now);
  }

  /**
   Games are conserved: the fleet gains exactly the accepted ones. With an uncapped candidate that is all of
   them, otherwise at most the initial free slots.
   */
  lemma {:induction false} GamesConserved(t: seq<ShardRow>, required: nat, now: nat, n: nat)
    ensures TotalGames(Fill(t, required, now, n))
            == TotalGames(t)
               + if HasUncapped(t, required, now) || n <= TotalFree(t, required, now) then n
                 else TotalFree(t, required, now)
  {
    if n > 0 {
      GamesConserved(t, required, now, n - 1);
      FillAddsGame(t, required, now, n - 1);
    }
  }
}
