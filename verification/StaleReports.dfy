/**
 Placement on delayed reports. Shards report their counts now and then, so a decision may see, for every
 shard on its own, a count that is some placements old. How far a cap can then be overrun, exactly.
 */
module StaleReports {
  import opened Prelude
  import opened Scheduler
  import opened Fleet

  /**
   A run on delayed reports: `actual[k]` is the fleet after `k` decisions, `seen[k]` the table the router
   looks at for decision `k`. Each row seen is the actual one at most `lag` decisions ago.
   */
  ghost predicate DelayedRun(
    actual: seq<seq<ShardRow>>, seen: seq<seq<ShardRow>>, required: nat, now: nat, lag: nat)
  {
    && |actual| == |seen| + 1
    && forall k :: 0 <= k < |seen| ==> DelayedStep(actual, seen, required, now, lag, k)
  }

  /** One decision: the pick comes from the table seen, the game goes to the actual fleet. */
  ghost predicate DelayedStep(
    actual: seq<seq<ShardRow>>, seen: seq<seq<ShardRow>>, required: nat, now: nat, lag: nat, k: nat)
    requires |actual| == |seen| + 1 && k < |seen|
  {
    && |seen[k]| == |actual[k]|
    && (forall i :: 0 <= i < |seen[k]| ==> SeenWithin(actual, seen[k][i], i, k, lag))
    && actual[k + 1] == PlaceAsSeen(actual[k], seen[k], required, now)
  }

  /** The row at index `i` was actual at some point of the last `lag` decisions. */
  ghost predicate SeenWithin(actual: seq<seq<ShardRow>>, row: ShardRow, i: nat, k: nat, lag: nat)
    requires k < |actual|
  {
    exists m :: 0 <= m <= k && k <= m + lag && i < |actual[m]| && actual[m][i] == row
  }

  function PlaceAsSeen(t: seq<ShardRow>, seen: seq<ShardRow>, required: nat, now: nat): (t': seq<ShardRow>)
    requires |seen| == |t|
    ensures |t'| == |t|
  {
    var b := BestIndex(seen, required, now);
    if b.None? then t else t[b.value := Bump(t[b.value])]
  }

  /** Between two points of a run a row gains at most one game a decision, and its cap stays. */
  lemma {:induction false} RowGrowth(
    actual: seq<seq<ShardRow>>, seen: seq<seq<ShardRow>>, required: nat, now: nat, lag: nat, i: nat, m: nat, k: nat)
    requires DelayedRun(actual, seen, required, now, lag) && m <= k <= |seen| && i < |actual[m]|
    ensures i < |actual[k]| && actual[k][i].maxGames == actual[m][i].maxGames
    ensures GameCount(actual[m][i]) <= GameCount(actual[k][i]) <= GameCount(actual[m][i]) + (k - m)
    decreases k
  {
    if m < k {
      RowGrowth(actual, seen, required, now, lag, i, m, k - 1);
      assert DelayedStep(actual, seen, required, now, lag, k - 1);
    }
  }

  /** A decision that fills a capped row saw it below its cap. */
  lemma FilledWasBelowCap(
    actual: seq<seq<ShardRow>>, seen: seq<seq<ShardRow>>, required: nat, now: nat, lag: nat, i: nat, k: nat)
    requires DelayedRun(actual, seen, required, now, lag) && k < |seen|
    requires i < |actual[k]| && i < |actual[k + 1]|
    requires actual[k][i].maxGames.Some? && actual[k + 1][i] != actual[k][i]
    ensures GameCount(actual[k + 1][i]) <= actual[k][i].maxGames.value + lag
  {
    assert DelayedStep(actual, seen, required, now, lag, k);
    assert BestIndex(seen[k], required, now) == Some(i);
    assert SeenWithin(actual, seen[k][i], i, k, lag);
    var m :| 0 <= m <= k && k <= m + lag && i < |actual[m]| && actual[m][i] == seen[k][i];
    RowGrowth(actual, seen, required, now, lag, i, m, k);
  }

  /**
   Bounded overbooking: when every row a decision sees is at most `lag` decisions old, no shard that starts
   within its cap ever holds more than `lag` games above it.
   */
  lemma {:induction false} OverbookingBounded(
    actual: seq<seq<ShardRow>>, seen: seq<seq<ShardRow>>, required: nat, now: nat, lag: nat, i: nat, k: nat)
    requires DelayedRun(actual, seen, required, now, lag) && k <= |seen| && i < |actual[0]|
    requires actual[0][i].maxGames.Some? && GameCount(actual[0][i]) <= actual[0][i].maxGames.value
    ensures i < |actual[k]| && GameCount(actual[k][i]) <= actual[0][i].maxGames.value + lag
  {
    if k > 0 {
      OverbookingBounded(actual, seen, required, now, lag, i, k - 1);
      RowGrowth(actual, seen, required, now, lag, i, 0, k - 1);
      assert DelayedStep(actual, seen, required, now, lag, k - 1);
      if actual[k][i] != actual[k - 1][i] {
        FilledWasBelowCap(actual, seen, required, now, lag, i, k - 1);
      }
    }
  }

  /** A healthy row for contract 0 with the given cap and count. */
  function Capped(max: nat, count: nat, now: nat): ShardRow {
    ShardRow("shard", "", "healthy", true, true, 0, 0, count, None, Some(max), 0.0, 0, now, None)
  }

  /** The only row of a fleet gets the game as long as its report shows room. */
  lemma OnlyRowGetsGame(max: nat, count: nat, reported: nat, now: nat)
    requires reported < max
    ensures PlaceAsSeen([Capped(max, count, now)], [Capped(max, reported, now)], 0, now)
            == [Capped(max, count + 1, now)]
  {
    var seen := [Capped(max, reported, now)];
    assert Drop1(seen) == [] && Last(seen) == seen[0];
    assert BestIndex(Drop1(seen), 0, now).None?;
    assert IsEligible(seen[0], 0, now);
    assert BestIndex(seen, 0, now) == Some(0);
    assert Bump(Capped(max, count, now)) == Capped(max, count + 1, now);
  }

  /**
   The bound is reached: for every positive cap and every lag there is a run in which a shard one below its cap ends
   exactly `lag` above it, every decision still seeing the first report.
   */
  lemma OverbookingReached(max: nat, lag: nat, now: nat)
    returns (actual: seq<seq<ShardRow>>, seen: seq<seq<ShardRow>>)
    requires 1 <= max
    ensures DelayedRun(actual, seen, 0, now, lag) && |seen| == lag + 1
    ensures actual[0] == [Capped(max, max - 1, now)]
    ensures forall k :: 0 <= k < |seen| ==> seen[k] == actual[0]
    ensures |actual[lag + 1]| == 1 && GameCount(actual[lag + 1][0]) == max + lag
  {
    actual := seq(lag + 2, k requires 0 <= k < lag + 2 => [Capped(max, max - 1 + k, now)]);
    seen := seq(lag + 1, k => [Capped(max, max - 1, now)]);
    forall k | 0 <= k < |seen|
      ensures DelayedStep(actual, seen, 0, now, lag, k)
    {
      OnlyRowGetsGame(max, max - 1 + k, max - 1, now);
      assert actual[k + 1] == PlaceAsSeen(actual[k], seen[k], 0, now);
      assert actual[0][0] == seen[k][0];
      assert SeenWithin(actual, seen[k][0], 0, k, lag);
    }
    assert actual[lag + 1] == [Capped(max, max + lag, now)];
  }
}
