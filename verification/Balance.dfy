/**
 How evenly greedy placement spreads games over alike shards. Rows that fail the gates other than capacity
 play no part, so everything is said about the candidates: the rows of the table that pass those gates.
 */
module Balance {
  import opened Prelude
  import opened Scheduler
  import opened Fleet

  // ----- the candidates ---------------------------------------------------------------------

  function Candidates(t: seq<ShardRow>, required: nat, now: nat): seq<ShardRow> {
    if t == [] then []
    else
      var front := Candidates(Drop1(t), required, now);
      if PassesOtherGates(Last(t), required, now) then front + [Last(t)] else front
  }

  /** Position among the candidates of the candidate at index `i`. */
  function RankOf(t: seq<ShardRow>, i: nat, required: nat, now: nat): nat
    requires i < |t|
  {
    |Candidates(t[..i], required, now)|
  }

  lemma {:induction false} CandidatesPass(t: seq<ShardRow>, required: nat, now: nat)
    ensures forall s :: s in Candidates(t, required, now) <==> s in t && PassesOtherGates(s, required, now)
  {
    if t != [] {
      CandidatesPass(Drop1(t), required, now);
      assert t == Drop1(t) + [Last(t)];
    }
  }

  lemma {:induction false} CandidatesUpdate(t: seq<ShardRow>, i: nat, s: ShardRow, required: nat, now: nat)
    requires i < |t| && PassesOtherGates(t[i], required, now) && PassesOtherGates(s, required, now)
    ensures var c, r := Candidates(t, required, now), RankOf(t, i, required, now);
            r < |c| && c[r] == t[i] && Candidates(t[i := s], required, now) == c[r := s]
  {
    if i == |t| - 1 {
      assert Drop1(t[i := s]) == Drop1(t) == t[..i];
    } else {
      CandidatesUpdate(Drop1(t), i, s, required, now);
      assert Drop1(t[i := s]) == Drop1(t)[i := s] && Drop1(t)[..i] == t[..i];
    }
  }

  /** The best candidate sits where the best row of the table lands among the candidates. */
  ghost predicate BestCarriesOver(t: seq<ShardRow>, required: nat, now: nat) {
    var b := BestIndex(t, required, now);
    BestIndex(Candidates(t, required, now), required, now)
    == if b.None? then None else Some(RankOf(t, b.value, required, now))
  }

  lemma BestIndexSnoc(t: seq<ShardRow>, x: ShardRow, required: nat, now: nat)
    ensures var b := BestIndex(t, required, now);
            BestIndex(t + [x], required, now)
            == if IsEligible(x, required, now) && (b.Some? ==> Score(x) < Score(t[b.value])) then Some(|t|) else b
  {
    assert Drop1(t + [x]) == t && Last(t + [x]) == x;
  }

  lemma CandidatesSnoc(t: seq<ShardRow>, x: ShardRow, required: nat, now: nat)
    ensures Candidates(t + [x], required, now)
            == Candidates(t, required, now) + if PassesOtherGates(x, required, now) then [x] else []
    ensures RankOf(t + [x], |t|, required, now) == |Candidates(t, required, now)|
    ensures forall i :: 0 <= i < |t| ==> RankOf(t + [x], i, required, now) == RankOf(t, i, required, now)
  {
    assert Drop1(t + [x]) == t && Last(t + [x]) == x && (t + [x])[..|t|] == t;
    assert forall i :: 0 <= i < |t| ==> (t + [x])[..i] == t[..i];
  }

  lemma BestCarriesOverSnoc(front: seq<ShardRow>, x: ShardRow, required: nat, now: nat)
    requires BestCarriesOver(front, required, now)
    ensures BestCarriesOver(front + [x], required, now)
  {
    var c, b := Candidates(front, required, now), BestIndex(front, required, now);
    CandidatesSnoc(front, x, required, now);
    BestIndexSnoc(front, x, required, now);
    BestIndexSnoc(c, x, required, now);
    if b.Some? {
      CandidatesUpdate(front, b.value, front[b.value], required, now);
      assert c[RankOf(front, b.value, required, now)] == front[b.value];
    }
  }

  lemma {:induction false} BestAmongCandidates(t: seq<ShardRow>, required: nat, now: nat)
    ensures BestCarriesOver(t, required, now)
  {
    if t != [] {
      BestAmongCandidates(Drop1(t), required, now);
      BestCarriesOverSnoc(Drop1(t), Last(t), required, now);
      assert t == Drop1(t) + [Last(t)];
    }
  }

  /** Placing and leaving out the other rows commute. */
  lemma PlaceOneCommutes(t: seq<ShardRow>, required: nat, now: nat)
    ensures Candidates(PlaceOne(t, required, now), required, now)
            == PlaceOne(Candidates(t, required, now), required, now)
  {
    BestAmongCandidates(t, required, now);
    var b := BestIndex(t, required, now);
    if b.Some? {
      CandidatesUpdate(t, b.value, Bump(t[b.value]), required, now);
    }
  }

  lemma {:induction false} FillCommutes(t: seq<ShardRow>, required: nat, now: nat, n: nat)
    ensures Candidates(Fill(t, required, now, n), required, now)
            == Fill(Candidates(t, required, now), required, now, n)
  {
    if n > 0 {
      FillCommutes(t, required, now, n - 1);
      var v := Fill(t, required, now, n - 1);
      PlaceOneCommutes(v, required, now);
      assert Fill(t, required, now, n) == PlaceOne(v, required, now);
    }
  }

  // ----- counts within one of each other ----------------------------------------------------

  /** The rows agree on everything the score sees except the count. */
  ghost predicate Alike(t: seq<ShardRow>) {
    forall i, j :: 0 <= i < |t| && 0 <= j < |t| ==>
      t[i].maxGames == t[j].maxGames && t[i].cpuPct == t[j].cpuPct && t[i].recentWakeRate == t[j].recentWakeRate
  }

  /** A table of alike candidates. */
  ghost predicate Uniform(t: seq<ShardRow>, required: nat, now: nat) {
    Alike(t) && forall i :: 0 <= i < |t| ==> PassesOtherGates(t[i], required, now)
  }

  lemma AlikeCandidatesUniform(t: seq<ShardRow>, required: nat, now: nat)
    requires Alike(Candidates(t, required, now))
    ensures Uniform(Candidates(t, required, now), required, now)
  {
    CandidatesPass(t, required, now);
    var c := Candidates(t, required, now);
    assert forall i :: 0 <= i < |c| ==> c[i] in c;
  }

  ghost predicate WithinOne(t: seq<ShardRow>) {
    forall i, j :: 0 <= i < |t| && 0 <= j < |t| ==> GameCount(t[i]) <= GameCount(t[j]) + 1
  }

  ghost predicate HasMinCount(t: seq<ShardRow>, i: nat) {
    i < |t| && forall j :: 0 <= j < |t| ==> GameCount(t[i]) <= GameCount(t[j])
  }

  /** Raising a least-loaded row keeps the counts within one of each other. */
  lemma BumpMinBalances(t: seq<ShardRow>, i: nat)
    requires WithinOne(t) && HasMinCount(t, i)
    ensures WithinOne(t[i := Bump(t[i])])
  {
  }

  /** The pick has the least count as long as that count is still told apart by the score. */
  lemma PickHasMinCount(t: seq<ShardRow>, required: nat, now: nat, i: nat, m: nat)
    requires Uniform(t, required, now) && BestIndex(t, required, now) == Some(i)
    requires HasMinCount(t, m) && GameCount(t[m]) < 2 * ScoreCap(t[m])
    ensures HasMinCount(t, i)
  {
    BestIndexMinimal(t, required, now);
    assert IsEligible(t[i], required, now);
    if GameCount(t[m]) < GameCount(t[i]) {
      assert IsEligible(t[m], required, now);
      LoadStrict(GameCount(t[m]), GameCount(t[i]), ScoreCap(t[m]));
      assert false;
    }
  }

  lemma {:induction false} MinCountExists(t: seq<ShardRow>) returns (m: nat)
    requires t != []
    ensures HasMinCount(t, m)
  {
    if |t| == 1 {
      m := 0;
    } else {
      m := MinCountExists(Drop1(t));
      if GameCount(Last(t)) < GameCount(t[m]) {
        m := |t| - 1;
      }
    }
  }

  /** Uniform, balanced, and every row has a cap. */
  ghost predicate BalancedCapped(t: seq<ShardRow>, required: nat, now: nat) {
    Uniform(t, required, now) && WithinOne(t) && forall i :: 0 <= i < |t| ==> t[i].maxGames.Some?
  }

  lemma BumpKeepsUniform(t: seq<ShardRow>, required: nat, now: nat, i: nat)
    requires Uniform(t, required, now) && i < |t|
    ensures Uniform(t[i := Bump(t[i])], required, now)
  {
  }

  lemma CappedStepBalance(t: seq<ShardRow>, required: nat, now: nat)
    requires BalancedCapped(t, required, now)
    ensures BalancedCapped(PlaceOne(t, required, now), required, now)
  {
    var b := BestIndex(t, required, now);
    if b.Some? {
      var m := MinCountExists(t);
      assert GameCount(t[m]) <= GameCount(t[b.value]);
      PickHasMinCount(t, required, now, b.value, m);
      BumpMinBalances(t, b.value);
      BumpKeepsUniform(t, required, now, b.value);
    }
  }

  /** What every placement keeps holds after any number of them. */
  lemma {:induction false} FillKeeps(t: seq<ShardRow>, required: nat, now: nat, n: nat, inv: seq<ShardRow> -> bool)
    requires inv(t) && forall v :: inv(v) ==> inv(PlaceOne(v, required, now))
    ensures inv(Fill(t, required, now, n))
  {
    if n > 0 {
      FillKeeps(t, required, now, n - 1, inv);
    }
  }

  lemma UniformStaysBalanced(t: seq<ShardRow>, required: nat, now: nat, n: nat)
    requires BalancedCapped(t, required, now)
    ensures WithinOne(Fill(t, required, now, n))
  {
    var inv := v => BalancedCapped(v, required, now);
    forall v | inv(v)
      ensures inv(PlaceOne(v, required, now))
    {
      CappedStepBalance(v, required, now);
    }
    FillKeeps(t, required, now, n, inv);
    assert inv(Fill(t, required, now, n));
  }

  /**
   Greedy balance: when the candidates are capped, with equal cap, CPU and wake rate, and their counts start
   within one of each other, the counts are within one of each other after every number of placements,
   whatever other rows the table holds.
   */
  lemma GreedyBalance(t: seq<ShardRow>, required: nat, now: nat, n: nat)
    requires Alike(Candidates(t, required, now)) && WithinOne(Candidates(t, required, now))
    requires forall s :: s in Candidates(t, required, now) ==> s.maxGames.Some?
    ensures WithinOne(Candidates(Fill(t, required, now, n), required, now))
  {
    AlikeCandidatesUniform(t, required, now);
    UniformStaysBalanced(Candidates(t, required, now), required, now, n);
    FillCommutes(t, required, now, n);
  }

  // ----- uncapped shards ----------------------------------------------------------------------

  lemma SaturatedLoad(count: nat)
    requires 200 <= count
    ensures LoadScore(count, 100) == 2.0 * 0.45 + 2.0 * 0.35
  {
    DivMonotone(200.0, count as real, 100.0, 100.0);
  }

  /** Uniform uncapped rows that all have at least 200 games. */
  ghost predicate Saturated(t: seq<ShardRow>, required: nat, now: nat) {
    && Uniform(t, required, now) && t != []
    && forall i :: 0 <= i < |t| ==> t[i].maxGames.None? && 200 <= GameCount(t[i])
  }

  /** When every row is saturated all scores tie, and the first row wins. */
  lemma SaturatedPicksFirst(t: seq<ShardRow>, required: nat, now: nat)
    requires Saturated(t, required, now)
    ensures BestIndex(t, required, now) == Some(0)
  {
    BestIndexMinimal(t, required, now);
    assert IsEligible(t[0], required, now);
    var i := BestIndex(t, required, now).value;
    SaturatedLoad(GameCount(t[i]));
    SaturatedLoad(GameCount(t[0]));
    assert Score(t[i]) == Score(t[0]);
  }

  lemma SaturatedStep(t: seq<ShardRow>, required: nat, now: nat)
    requires Saturated(t, required, now)
    ensures Saturated(PlaceOne(t, required, now), required, now)
    ensures GameCount(PlaceOne(t, required, now)[0]) == GameCount(t[0]) + 1
    ensures forall i :: 1 <= i < |t| ==> PlaceOne(t, required, now)[i] == t[i]
  {
    SaturatedPicksFirst(t, required, now);
    BumpKeepsUniform(t, required, now, 0);
  }

  /** The first row has `n` more games, the others are untouched. */
  ghost predicate FirstRaised(v: seq<ShardRow>, u: seq<ShardRow>, n: nat) {
    && |u| == |v| > 0 && GameCount(u[0]) == GameCount(v[0]) + n
    && forall i :: 1 <= i < |v| ==> u[i] == v[i]
  }

  /** With `n` more games the first row is at most one ahead of every other. */
  ghost predicate FirstInReach(v: seq<ShardRow>, n: nat) {
    forall i :: 1 <= i < |v| ==> GameCount(v[0]) + n <= GameCount(v[i]) + 1
  }

  lemma FirstRaisedAdds(v: seq<ShardRow>, w: seq<ShardRow>, u: seq<ShardRow>, n: nat)
    requires n > 0 && FirstRaised(v, w, n - 1) && FirstRaised(w, u, 1)
    ensures FirstRaised(v, u, n)
  {
  }

  lemma SaturatedFillStep(t: seq<ShardRow>, required: nat, now: nat, k: nat)
    requires Saturated(Fill(t, required, now, k), required, now)
    ensures Saturated(Fill(t, required, now, k + 1), required, now)
    ensures FirstRaised(Fill(t, required, now, k), Fill(t, required, now, k + 1), 1)
  {
    SaturatedStep(Fill(t, required, now, k), required, now);
  }

  /** Once all rows are saturated, after `m` placements, every further game lands on the first row. */
  lemma {:induction false} UncappedPilesUp(t: seq<ShardRow>, required: nat, now: nat, m: nat, n: nat)
    requires Saturated(Fill(t, required, now, m), required, now)
    ensures Saturated(Fill(t, required, now, m + n), required, now)
    ensures FirstRaised(Fill(t, required, now, m), Fill(t, required, now, m + n), n)
  {
    if n > 0 {
      UncappedPilesUp(t, required, now, m, n - 1);
      SaturatedFillStep(t, required, now, m + n - 1);
      FirstRaisedAdds(Fill(t, required, now, m), Fill(t, required, now, m + n - 1), Fill(t, required, now, m + n), n);
    }
  }

  /** Games missing to 200. */
  function Missing(s: ShardRow): nat {
    SaturatingSub(200, GameCount(s))
  }

  function Deficit(t: seq<ShardRow>): nat {
    Sum(t, Missing)
  }

  lemma DeficitPositive(t: seq<ShardRow>)
    ensures Deficit(t) > 0 <==> exists i :: 0 <= i < |t| && GameCount(t[i]) < 200
  {
    SumPositive(t, Missing);
    assert forall i :: 0 <= i < |t| ==> (Missing(t[i]) > 0 <==> GameCount(t[i]) < 200);
  }

  /** Alike uncapped rows still filling up to 200 games, evenly. */
  ghost predicate Filling(t: seq<ShardRow>, required: nat, now: nat) {
    && Uniform(t, required, now) && WithinOne(t)
    && forall i :: 0 <= i < |t| ==> t[i].maxGames.None? && GameCount(t[i]) <= 200
  }

  /** While games are missing, the pick is a least-loaded row below 200. */
  lemma FillingPick(t: seq<ShardRow>, required: nat, now: nat) returns (i: nat)
    requires Filling(t, required, now) && Deficit(t) > 0
    ensures BestIndex(t, required, now) == Some(i) && HasMinCount(t, i) && GameCount(t[i]) < 200
  {
    DeficitPositive(t);
    var m := MinCountExists(t);
    assert IsEligible(t[m], required, now);
    BestIndexMinimal(t, required, now);
    i := BestIndex(t, required, now).value;
    PickHasMinCount(t, required, now, i, m);
  }

  lemma BumpKeepsFilling(t: seq<ShardRow>, required: nat, now: nat, i: nat)
    requires Filling(t, required, now) && HasMinCount(t, i) && GameCount(t[i]) < 200
    ensures Filling(t[i := Bump(t[i])], required, now)
  {
    BumpMinBalances(t, i);
    BumpKeepsUniform(t, required, now, i);
  }

  lemma BumpLowersDeficit(t: seq<ShardRow>, i: nat)
    requires i < |t| && GameCount(t[i]) < 200
    ensures Deficit(t[i := Bump(t[i])]) == Deficit(t) - 1
  {
    SumUpdate(t, Missing, i, Bump(t[i]));
    assert Missing(Bump(t[i])) == Missing(t[i]) - 1;
  }

  lemma FillingStep(t: seq<ShardRow>, required: nat, now: nat)
    requires Filling(t, required, now) && Deficit(t) > 0
    ensures Filling(PlaceOne(t, required, now), required, now)
    ensures Deficit(PlaceOne(t, required, now)) == Deficit(t) - 1
  {
    var i := FillingPick(t, required, now);
    BumpKeepsFilling(t, required, now, i);
    BumpLowersDeficit(t, i);
  }

  /** After `n` placements the rows are still filling, with `n` fewer games missing. */
  ghost predicate FilledBy(t: seq<ShardRow>, required: nat, now: nat, n: nat) {
    var v := Fill(t, required, now, n);
    Filling(v, required, now) && Deficit(v) + n == Deficit(t)
  }

  lemma FilledByNone(t: seq<ShardRow>, required: nat, now: nat)
    requires Filling(t, required, now)
    ensures FilledBy(t, required, now, 0)
  {
    assert Fill(t, required, now, 0) == t;
  }

  lemma FilledByOneMore(t: seq<ShardRow>, required: nat, now: nat, n: nat)
    requires FilledBy(t, required, now, n) && n < Deficit(t)
    ensures FilledBy(t, required, now, n + 1)
  {
    var v := Fill(t, required, now, n);
    FillingStep(v, required, now);
    assert Fill(t, required, now, n + 1) == PlaceOne(v, required, now);
  }

  lemma {:induction false} FillingPhase(t: seq<ShardRow>, required: nat, now: nat, n: nat)
    requires Filling(t, required, now) && n <= Deficit(t)
    ensures FilledBy(t, required, now, n)
  {
    if n == 0 {
      FilledByNone(t, required, now);
    } else {
      FillingPhase(t, required, now, n - 1);
      FilledByOneMore(t, required, now, n - 1);
    }
  }

  /** From saturation, balance lasts until the first row is two ahead of another. */
  lemma SaturatedBalanceExactly(t: seq<ShardRow>, required: nat, now: nat, m: nat, n: nat)
    requires Saturated(Fill(t, required, now, m), required, now) && WithinOne(Fill(t, required, now, m))
    ensures var v := Fill(t, required, now, m);
            WithinOne(Fill(t, required, now, m + n))
            <==> FirstInReach(v, n)
  {
    UncappedPilesUp(t, required, now, m, n);
    RaisedFirstWithinOne(Fill(t, required, now, m), Fill(t, required, now, m + n), n);
  }

  lemma RaisedFirstWithinOne(v: seq<ShardRow>, u: seq<ShardRow>, n: nat)
    requires FirstRaised(v, u, n) && WithinOne(v)
    ensures WithinOne(u) <==> FirstInReach(v, n)
  {
    if WithinOne(u) {
      forall i | 1 <= i < |v|
        ensures GameCount(v[0]) + n <= GameCount(v[i]) + 1
      {
        assert u[i] == v[i] && GameCount(u[0]) <= GameCount(u[i]) + 1;
      }
      assert FirstInReach(v, n);
    }
    if FirstInReach(v, n) {
      forall i, j | 0 <= i < |u| && 0 <= j < |u|
        ensures GameCount(u[i]) <= GameCount(u[j]) + 1
      {
        assert GameCount(v[i]) <= GameCount(v[j]) + 1;
        assert i > 0 ==> u[i] == v[i];
        assert j > 0 ==> u[j] == v[j];
      }
    }
  }

  lemma SaturatedFromStart(t: seq<ShardRow>, required: nat, now: nat, n: nat)
    requires Saturated(t, required, now) && WithinOne(t)
    ensures WithinOne(Fill(t, required, now, n)) <==> FirstInReach(t, n)
  {
    assert Fill(t, required, now, 0) == t && 0 + n == n;
    SaturatedBalanceExactly(t, required, now, 0, n);
  }

  /** Without a deficit, rows that were filling all stand at 200. */
  lemma FilledRows(v: seq<ShardRow>, required: nat, now: nat)
    requires Filling(v, required, now) && Deficit(v) == 0 && v != []
    ensures Saturated(v, required, now) && forall i :: 0 <= i < |v| ==> GameCount(v[i]) == 200
  {
    DeficitPositive(v);
    forall i | 0 <= i < |v|
      ensures GameCount(v[i]) == 200
    {
      assert !(GameCount(v[i]) < 200);
    }
  }

  /** From 200 games everywhere, one more is in reach. */
  lemma InReachFrom200(v: seq<ShardRow>, n: nat)
    requires v != [] && forall i :: 0 <= i < |v| ==> GameCount(v[i]) == 200
    ensures FirstInReach(v, n) <==> |v| == 1 || n <= 1
  {
    if FirstInReach(v, n) && |v| > 1 {
      assert GameCount(v[0]) + n <= GameCount(v[1]) + 1;
    }
  }

  /** After the missing games, balance lasts for exactly one more. */
  lemma BeyondFilling(t: seq<ShardRow>, required: nat, now: nat, n: nat)
    requires Filling(t, required, now) && t != []
    ensures WithinOne(Fill(t, required, now, Deficit(t) + n)) <==> |t| == 1 || n <= 1
  {
    var d := Deficit(t);
    FillingPhase(t, required, now, d);
    var full := Fill(t, required, now, d);
    FilledRows(full, required, now);
    InReachFrom200(full, n);
    SaturatedBalanceExactly(t, required, now, d, n);
  }

  lemma UniformUncappedExactly(t: seq<ShardRow>, required: nat, now: nat, n: nat)
    requires Filling(t, required, now) && Deficit(t) > 0
    ensures WithinOne(Fill(t, required, now, n)) <==> |t| == 1 || n <= Deficit(t) + 1
  {
    if n <= Deficit(t) {
      FillingPhase(t, required, now, n);
    } else {
      BeyondFilling(t, required, now, n - Deficit(t));
      assert Deficit(t) + (n - Deficit(t)) == n;
    }
  }

  /** The placements that keep alike uncapped rows balanced. */
  ghost predicate BalanceLasts(c: seq<ShardRow>, n: nat) {
    if exists i :: 0 <= i < |c| && GameCount(c[i]) < 200 then |c| == 1 || n <= Deficit(c) + 1
    else FirstInReach(c, n)
  }

  /** Balanced rows of which one is below 200 are all still filling. */
  lemma BelowMeansFilling(c: seq<ShardRow>, required: nat, now: nat)
    requires Uniform(c, required, now) && WithinOne(c) && Deficit(c) > 0
    requires forall i :: 0 <= i < |c| ==> c[i].maxGames.None?
    ensures Filling(c, required, now)
  {
    DeficitPositive(c);
    var i :| 0 <= i < |c| && GameCount(c[i]) < 200;
    assert forall j :: 0 <= j < |c| ==> GameCount(c[j]) <= GameCount(c[i]) + 1;
  }

  lemma UniformBalanceExactly(c: seq<ShardRow>, required: nat, now: nat, n: nat)
    requires Uniform(c, required, now) && WithinOne(c)
    requires forall i :: 0 <= i < |c| ==> c[i].maxGames.None?
    ensures WithinOne(Fill(c, required, now, n)) <==> BalanceLasts(c, n)
  {
    DeficitPositive(c);
    if Deficit(c) > 0 {
      BelowMeansFilling(c, required, now);
      UniformUncappedExactly(c, required, now, n);
    } else if c != [] {
      SaturatedFromStart(c, required, now, n);
    }
  }

  /**
   Uncapped shards score alike from 200 games on, and ties go to the first row. So for alike uncapped
   candidates whose counts start within one of each other, balance is exact over whole runs: with some
   candidate below 200 games it holds after `n` placements precisely up to one more than the games missing
   to 200 (or when there is one candidate), and otherwise precisely while the first candidate is at most
   one ahead of every other.
   */
  lemma UncappedBalanceExactly(t: seq<ShardRow>, required: nat, now: nat, n: nat)
    requires Alike(Candidates(t, required, now)) && WithinOne(Candidates(t, required, now))
    requires forall s :: s in Candidates(t, required, now) ==> s.maxGames.None?
    ensures WithinOne(Candidates(Fill(t, required, now, n), required, now))
            <==> BalanceLasts(Candidates(t, required, now), n)
  {
    var c := Candidates(t, required, now);
    AlikeCandidatesUniform(t, required, now);
    FillCommutes(t, required, now, n);
    assert forall i :: 0 <= i < |c| ==> c[i] in c;
    UniformBalanceExactly(c, required, now, n);
  }
}
