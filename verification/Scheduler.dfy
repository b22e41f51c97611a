/**
 The placement decision of the router: the eligibility filter, the weighted load score, the
 earliest-minimum pick, stickiness and the classification of refusals.
 Scores are exact reals; the router computes them in 64-bit floating point.
 */
module Scheduler {
  import opened Prelude

  const SHARD_FRESHNESS_MS := 30_000

  datatype BrokerInfo = BrokerInfo(
    flyMachineId: Option<string>,
    publicUrl: Option<string>,
    wsPath: Option<string>)

  /** One `shards:*` row as a Broker publishes it. */
  datatype ShardRow = ShardRow(
    shardId: string,
    url: string,
    status: string,
    healthy: bool,
    acceptingWakes: bool,
    contractMin: nat,
    contractMax: nat,
    activeGames: nat,
    currentGameCount: Option<nat>,
    maxGames: Option<nat>,
    cpuPct: real,
    recentWakeRate: nat,
    lastSeenAt: nat,
    broker: Option<BrokerInfo>)

  // ----- the gates -------------------------------------------------------------------------

  function GameCount(s: ShardRow): nat {
    if s.currentGameCount.Some? then s.currentGameCount.value else s.activeGames
  }

  predicate HasCapacity(s: ShardRow) {
    s.maxGames.Some? ==> GameCount(s) < s.maxGames.value
  }

  predicate InRange(s: ShardRow, required: nat) {
    s.contractMin <= required <= s.contractMax
  }

  function SaturatingSub(a: nat, b: nat): nat {
    if b <= a then a - b else 0
  }

  predicate Fresh(s: ShardRow, now: nat) {
    SaturatingSub(now, s.lastSeenAt) <= SHARD_FRESHNESS_MS
  }

  /** Every gate except capacity. */
  predicate PassesOtherGates(s: ShardRow, required: nat, now: nat) {
    && s.healthy
    && s.status == "healthy"
    && s.acceptingWakes
    && Fresh(s, now)
    && InRange(s, required)
  }

  predicate IsEligible(s: ShardRow, required: nat, now: nat) {
    PassesOtherGates(s, required, now) && HasCapacity(s)
  }

  /** The row is open for a game: the placement page's list of demands, in the row's own fields. */
  ghost predicate OpenFor(s: ShardRow, required: nat, now: nat) {
    && s.healthy && s.status == "healthy"
    && s.acceptingWakes
    && now <= s.lastSeenAt + 30_000
    && s.contractMin <= required <= s.contractMax
    && (s.maxGames.Some? && s.currentGameCount.Some? ==> s.currentGameCount.value < s.maxGames.value)
    && (s.maxGames.Some? && s.currentGameCount.None? ==> s.activeGames < s.maxGames.value)
  }

  /** The filter of the router lets through exactly the open rows. */
  lemma EligibleIsOpen(s: ShardRow, required: nat, now: nat)
    ensures IsEligible(s, required, now) <==> OpenFor(s, required, now)
  {
  }

  /** The eligible rows of a table, in table order. */
  function EligibleRows(shards: seq<ShardRow>, required: nat, now: nat): seq<ShardRow> {
    if shards == [] then []
    else
      var front := EligibleRows(Drop1(shards), required, now);
      if IsEligible(Last(shards), required, now) then front + [Last(shards)] else front
  }

  lemma {:induction false} EligibleRowsMembers(shards: seq<ShardRow>, required: nat, now: nat)
    ensures forall s :: s in EligibleRows(shards, required, now) <==> s in shards && IsEligible(s, required, now)
  {
    if shards != [] {
      EligibleRowsMembers(Drop1(shards), required, now);
      assert shards == Drop1(shards) + [Last(shards)];
    }
  }

  // ----- the score -------------------------------------------------------------------------

  function Clamp(x: real, lo: real, hi: real): real {
    if x < lo then lo else if hi < x then hi else x
  }

  /** `max_games.unwrap_or(100).max(1)`. */
  function ScoreCap(s: ShardRow): nat {
    if s.maxGames.None? then 100 else if s.maxGames.value < 1 then 1 else s.maxGames.value
  }

  function EffectiveLoad(count: nat, cap: nat): real
    requires 1 <= cap
  {
    Clamp(count as real / cap as real, 0.0, 2.0)
  }

  function LoadScore(count: nat, cap: nat): real
    requires 1 <= cap
  {
    EffectiveLoad(count, cap) * 0.45 + Clamp(count as real / 100.0, 0.0, 2.0) * 0.35
  }

  function Score(s: ShardRow): real {
    LoadScore(GameCount(s), ScoreCap(s))
    + Clamp(s.cpuPct / 100.0, 0.0, 1.0) * 0.15
    + Clamp(s.recentWakeRate as real / 50.0, 0.0, 2.0) * 0.05
  }

  lemma DivMonotone(a: real, b: real, c: real, d: real)
    requires 0.0 <= a <= b && 0.0 < c <= d
    ensures a / d <= b / c
    ensures a < b ==> a / c < b / c
  {
    assert a / d * d == a && b / c * c == b && a / c * c == a;
    assert b / c * d >= b;
  }

  lemma ProductOrder(x: real, y: real, c: real)
    requires 0.0 < c && x * c < y * c
    ensures x < y
  {
  }

  lemma QuotientBelow(a: real, c: real, k: real)
    requires 0.0 <= a < k * c && 0.0 < c
    ensures 0.0 <= a / c < k
  {
    var q := a / c;
    assert q * c == a;
    ProductOrder(q, k, c);
  }

  lemma LoadMonotone(count: nat, count': nat, cap: nat, cap': nat)
    requires count <= count' && 1 <= cap' <= cap
    ensures LoadScore(count, cap) <= LoadScore(count', cap')
  {
    DivMonotone(count as real, count' as real, cap' as real, cap as real);
    DivMonotone(count as real, count' as real, 100.0, 100.0);
  }

  lemma EffectiveLoadStrict(count: nat, count': nat, cap: nat)
    requires count < count' && 1 <= cap && count < 2 * cap
    ensures EffectiveLoad(count, cap) < EffectiveLoad(count', cap)
  {
    var a, b, c := count as real, count' as real, cap as real;
    DivMonotone(a, b, c, c);
    QuotientBelow(a, c, 2.0);
  }

  /** Below twice the cap the score tells any two game counts apart. */
  lemma LoadStrict(count: nat, count': nat, cap: nat)
    requires count < count' && 1 <= cap && count < 2 * cap
    ensures LoadScore(count, cap) < LoadScore(count', cap)
  {
    EffectiveLoadStrict(count, count', cap);
  }

  /** Monotone in count, CPU and wake rate, antitone in the cap. */
  lemma ScoreMonotone(a: ShardRow, b: ShardRow)
    requires GameCount(a) <= GameCount(b) && a.cpuPct <= b.cpuPct && a.recentWakeRate <= b.recentWakeRate
    requires ScoreCap(b) <= ScoreCap(a)
    ensures Score(a) <= Score(b)
  {
    LoadMonotone(GameCount(a), GameCount(b), ScoreCap(a), ScoreCap(b));
  }

  /** Range of the score, and the tighter bound for an eligible capped shard. */
  lemma ScoreBounds(s: ShardRow)
    ensures 0.0 <= Score(s) <= 1.85
    ensures s.maxGames.Some? && HasCapacity(s) ==> Score(s) < 1.40
    ensures s.cpuPct >= 100.0 && s.recentWakeRate >= 100 && GameCount(s) >= 200 && s.maxGames.None? ==> Score(s) == 1.85
  {
    if s.maxGames.Some? && HasCapacity(s) {
      var count, cap := GameCount(s) as real, ScoreCap(s) as real;
      QuotientBelow(count, cap, 1.0);
      assert EffectiveLoad(GameCount(s), ScoreCap(s)) < 1.0;
    }
  }

  // ----- what the score weighs ---------------------------------------------------------------

  /** Both rows have the same cap and report the same count. */
  ghost predicate SameLoad(a: ShardRow, b: ShardRow) {
    a.maxGames == b.maxGames && a.currentGameCount == b.currentGameCount && a.activeGames == b.activeGames
  }

  /** CPU weighs 0.15 per 100 points within [0, 100] and nothing outside. */
  lemma CpuWeight(a: ShardRow, b: ShardRow)
    requires SameLoad(a, b) && a.recentWakeRate == b.recentWakeRate
    ensures 0.0 <= a.cpuPct <= 100.0 && 0.0 <= b.cpuPct <= 100.0 ==>
              Score(b) - Score(a) == 0.0015 * (b.cpuPct - a.cpuPct)
    ensures (a.cpuPct <= 0.0 && b.cpuPct <= 0.0) || (100.0 <= a.cpuPct && 100.0 <= b.cpuPct) ==> Score(a) == Score(b)
  {
  }

  /** The wake rate weighs 0.05 per 50 units up to 100 and nothing beyond. */
  lemma WakeWeight(a: ShardRow, b: ShardRow)
    requires SameLoad(a, b) && a.cpuPct == b.cpuPct
    ensures a.recentWakeRate <= 100 && b.recentWakeRate <= 100 ==>
              Score(b) - Score(a) == 0.001 * (b.recentWakeRate as real - a.recentWakeRate as real)
    ensures 100 <= a.recentWakeRate && 100 <= b.recentWakeRate ==> Score(a) == Score(b)
  {
  }

  lemma QuotientAtLeast(a: real, c: real, k: real)
    requires 0.0 <= k && 0.0 < c && k * c <= a
    ensures k <= a / c
  {
    DivMonotone(k * c, a, c, c);
    assert k * c / c == k;
  }

  /** The load relative to the cap: count over cap, at most 2. */
  lemma EffectiveLoadExactly(count: nat, cap: nat)
    requires 1 <= cap
    ensures count <= 2 * cap ==> EffectiveLoad(count, cap) == count as real / cap as real
    ensures 2 * cap <= count ==> EffectiveLoad(count, cap) == 2.0
  {
    if 2 * cap <= count {
      QuotientAtLeast(count as real, cap as real, 2.0);
    } else {
      QuotientBelow(count as real, cap as real, 2.0);
    }
  }

  /**
   A game weighs 0.45 over the cap up to twice the cap, and 0.0035 up to 200 games. No cap weighs like a cap
   of 100, and a cap of 0 like a cap of 1.
   */
  lemma GameWeight(s: ShardRow, count: nat, cap: nat)
    requires s.currentGameCount == Some(count) || (s.currentGameCount.None? && s.activeGames == count)
    requires s.maxGames == Some(cap) || (s.maxGames.None? && cap == 100) || (s.maxGames == Some(0) && cap == 1)
    requires 1 <= cap && s.cpuPct <= 0.0 && s.recentWakeRate == 0
    ensures Score(s) == (if count <= 2 * cap then 0.45 * (count as real / cap as real) else 0.9)
                        + if count <= 200 then 0.0035 * count as real else 0.7
  {
    EffectiveLoadExactly(count, cap);
  }

  /** `a` has the same cap as `b` and is no busier in any respect. */
  ghost predicate NoBusier(a: ShardRow, b: ShardRow) {
    a.maxGames == b.maxGames && GameCount(a) <= GameCount(b)
    && a.cpuPct <= b.cpuPct && a.recentWakeRate <= b.recentWakeRate
  }

  /** In some respect `a` is less busy, within the range the score can see. */
  ghost predicate VisiblyLessBusy(a: ShardRow, b: ShardRow) {
    || (a.cpuPct < b.cpuPct && a.cpuPct < 100.0 && 0.0 < b.cpuPct)
    || (a.recentWakeRate < b.recentWakeRate && a.recentWakeRate < 100)
    || (GameCount(a) < GameCount(b)
        && (GameCount(a) < 200 || (a.maxGames.Some? && GameCount(a) < 2 * a.maxGames.value)))
  }

  lemma LoadOrder(count: nat, count': nat, cap: nat)
    requires count <= count' && 1 <= cap
    ensures LoadScore(count, cap) <= LoadScore(count', cap)
    ensures LoadScore(count, cap) < LoadScore(count', cap) <==> count < count' && (count < 200 || count < 2 * cap)
  {
    LoadMonotone(count, count', cap, cap);
    if count < count' && count < 2 * cap {
      LoadStrict(count, count', cap);
    } else {
      EffectiveLoadExactly(count, cap);
      EffectiveLoadExactly(count', cap);
    }
  }

  /** What the score tells apart, exactly: a row no busier than another scores less iff it is visibly less busy. */
  lemma ScoreStrictExactly(a: ShardRow, b: ShardRow)
    requires NoBusier(a, b)
    ensures Score(a) <= Score(b)
    ensures Score(a) < Score(b) <==> VisiblyLessBusy(a, b)
  {
    LoadOrder(GameCount(a), GameCount(b), ScoreCap(a));
  }

  // ----- the pick --------------------------------------------------------------------------

  /** Index `i` holds the earliest row of minimal score. */
  ghost predicate IsFirstMin(xs: seq<ShardRow>, i: nat) {
    && i < |xs|
    && (forall j :: 0 <= j < |xs| ==> Score(xs[i]) <= Score(xs[j]))
    && (forall j :: 0 <= j < i ==> Score(xs[i]) < Score(xs[j]))
  }

  function Best(xs: seq<ShardRow>): ShardRow
    requires xs != []
  {
    if |xs| == 1 then xs[0]
    else
      var b := Best(Drop1(xs));
      if Score(Last(xs)) < Score(b) then Last(xs) else b
  }

  lemma {:induction false} BestIsMinimal(xs: seq<ShardRow>)
    requires xs != []
    ensures forall x :: x in xs ==> Score(Best(xs)) <= Score(x)
  {
    if |xs| > 1 {
      BestIsMinimal(Drop1(xs));
      assert xs == Drop1(xs) + [Last(xs)];
    }
  }

  lemma {:induction false} BestIsEarliest(xs: seq<ShardRow>) returns (i: nat)
    requires xs != []
    ensures i < |xs| && Best(xs) == xs[i]
    ensures forall j :: 0 <= j < i ==> Score(Best(xs)) < Score(xs[j])
  {
    if |xs| == 1 {
      i := 0;
    } else if Score(Last(xs)) < Score(Best(Drop1(xs))) {
      i := |xs| - 1;
      BestIsMinimal(Drop1(xs));
      assert forall j :: 0 <= j < i ==> xs[j] in Drop1(xs);
    } else {
      i := BestIsEarliest(Drop1(xs));
    }
  }

  lemma BestIsFirstMin(xs: seq<ShardRow>) returns (i: nat)
    requires xs != []
    ensures IsFirstMin(xs, i) && Best(xs) == xs[i]
    ensures forall x :: x in xs ==> Score(Best(xs)) <= Score(x)
  {
    BestIsMinimal(xs);
    i := BestIsEarliest(xs);
  }

  /** There is only one such index, so the pick is determined. */
  lemma FirstMinUnique(xs: seq<ShardRow>, i: nat, k: nat)
    requires IsFirstMin(xs, i) && IsFirstMin(xs, k)
    ensures i == k
  {
    assert Score(xs[i]) <= Score(xs[k]) <= Score(xs[i]);
  }

  /** The loop of the router, keeping the best row so far. */
  method PickBestShard(eligible: seq<ShardRow>) returns (best: ShardRow)
    requires eligible != []
    ensures best == Best(eligible)
    ensures exists i: nat :: IsFirstMin(eligible, i) && best == eligible[i]
  {
    var found: Option<(real, ShardRow)> := None;
    for n := 0 to |eligible|
      invariant found.None? <==> n == 0
      invariant found.Some? ==> found.value == (Score(Best(eligible[..n])), Best(eligible[..n]))
    {
      var score := Score(eligible[n]);
      assert Drop1(eligible[..n + 1]) == eligible[..n];
      if found.None? || score < found.value.0 {
        found := Some((score, eligible[n]));
      }
    }
    assert eligible[..|eligible|] == eligible;
    best := found.value.1;
    var i := BestIsFirstMin(eligible);
  }

  /** Reordering the list never changes the minimal score. */
  lemma MinScorePermutationInvariant(xs: seq<ShardRow>, ys: seq<ShardRow>)
    requires xs != [] && multiset(xs) == multiset(ys)
    ensures ys != [] && Score(Best(xs)) == Score(Best(ys))
  {
    assert |ys| == |multiset(ys)| == |multiset(xs)| == |xs|;
    var i := BestIsFirstMin(xs);
    var j := BestIsFirstMin(ys);
    assert xs[i] in multiset(ys) && ys[j] in multiset(xs);
  }

  // ----- the decision ----------------------------------------------------------------------

  /** First row of the list with the given id. */
  function FindById(xs: seq<ShardRow>, id: string): Option<ShardRow> {
    if xs == [] then None
    else
      var front := FindById(Drop1(xs), id);
      if front.Some? then front
      else if Last(xs).shardId == id then Some(Last(xs)) else None
  }

  lemma {:induction false} FindByIdFirst(xs: seq<ShardRow>, id: string)
    ensures FindById(xs, id).Some? <==> exists s :: s in xs && s.shardId == id
    ensures FindById(xs, id).Some? ==>
              exists i :: 0 <= i < |xs| && xs[i] == FindById(xs, id).value && xs[i].shardId == id
                          && forall j :: 0 <= j < i ==> xs[j].shardId != id
  {
    if xs != [] {
      FindByIdFirst(Drop1(xs), id);
      assert xs == Drop1(xs) + [Last(xs)];
      if FindById(Drop1(xs), id).Some? {
        var i :| 0 <= i < |Drop1(xs)| && Drop1(xs)[i] == FindById(xs, id).value && Drop1(xs)[i].shardId == id
                 && forall j :: 0 <= j < i ==> Drop1(xs)[j].shardId != id;
        assert xs[i] == Drop1(xs)[i];
      } else if Last(xs).shardId == id {
        assert xs[|xs| - 1] == Last(xs);
        assert forall j :: 0 <= j < |xs| - 1 ==> xs[j] in Drop1(xs);
      }
    }
  }

  datatype Decision =
    | Place(shard: ShardRow)
    | ContractOutOfRange(required: nat, ranges: seq<(nat, nat)>)
    | NoEligibleShards(required: nat, seen: nat)

  predicate AnySupports(shards: seq<ShardRow>, required: nat) {
    exists s :: s in shards && InRange(s, required)
  }

  function Ranges(shards: seq<ShardRow>): seq<(nat, nat)> {
    seq(|shards|, i requires 0 <= i < |shards| => (shards[i].contractMin, shards[i].contractMax))
  }

  /** Steps 4 and 5: filter, refuse, or pick with a preference for the active shard. */
  function Decide(shards: seq<ShardRow>, required: nat, now: nat, active: Option<string>): Decision {
    var eligible := EligibleRows(shards, required, now);
    if eligible == [] then
      if !AnySupports(shards, required) && shards != [] then ContractOutOfRange(required, Ranges(shards))
      else NoEligibleShards(required, |shards|)
    else
      var sticky := if active.Some? then FindById(eligible, active.value) else None;
      Place(if sticky.Some? then sticky.value else Best(eligible))
  }

  /** A placed shard comes from the table and passed every gate. */
  lemma PlacedShardPassesGates(shards: seq<ShardRow>, required: nat, now: nat, active: Option<string>)
    ensures var d := Decide(shards, required, now, active);
            d.Place? ==> d.shard in shards && IsEligible(d.shard, required, now) && OpenFor(d.shard, required, now)
  {
    var eligible := EligibleRows(shards, required, now);
    EligibleRowsMembers(shards, required, now);
    if eligible != [] {
      var i := BestIsFirstMin(eligible);
      assert Best(eligible) in eligible;
      if active.Some? {
        FindByIdFirst(eligible, active.value);
      }
    }
  }

  /** The filter, exactly: a table places a game if and only if it lists an open row, and then on an open row. */
  lemma PlacesExactlyOpen(shards: seq<ShardRow>, required: nat, now: nat, active: Option<string>)
    ensures Decide(shards, required, now, active).Place? <==> exists s :: s in shards && OpenFor(s, required, now)
    ensures var d := Decide(shards, required, now, active);
            d.Place? ==> d.shard in shards && OpenFor(d.shard, required, now)
  {
    var eligible := EligibleRows(shards, required, now);
    EligibleRowsMembers(shards, required, now);
    PlacedShardPassesGates(shards, required, now, active);
    forall s
      ensures IsEligible(s, required, now) <==> OpenFor(s, required, now)
    {
      EligibleIsOpen(s, required, now);
    }
    if eligible != [] {
      assert eligible[0] in eligible;
    }
  }

  /** The active shard is kept exactly when one of its rows is eligible, whatever the scores. */
  lemma StickyExactly(shards: seq<ShardRow>, required: nat, now: nat, active: string)
    requires Decide(shards, required, now, Some(active)).Place?
    ensures Decide(shards, required, now, Some(active)).shard.shardId == active
            <==> exists s :: s in shards && s.shardId == active && IsEligible(s, required, now)
  {
    var eligible := EligibleRows(shards, required, now);
    EligibleRowsMembers(shards, required, now);
    FindByIdFirst(eligible, active);
    var i := BestIsFirstMin(eligible);
    assert Best(eligible) in eligible;
  }

  /** Without a usable active shard the pick is the earliest minimum of the eligible rows. */
  lemma FreshPickIsFirstMin(shards: seq<ShardRow>, required: nat, now: nat, active: Option<string>)
    requires Decide(shards, required, now, active).Place?
    requires active.Some? ==>
               forall s :: s in shards && IsEligible(s, required, now) ==> s.shardId != active.value
    ensures exists i: nat :: IsFirstMin(EligibleRows(shards, required, now), i)
                        && Decide(shards, required, now, active).shard == EligibleRows(shards, required, now)[i]
  {
    var eligible := EligibleRows(shards, required, now);
    EligibleRowsMembers(shards, required, now);
    if active.Some? {
      FindByIdFirst(eligible, active.value);
    }
    var i := BestIsFirstMin(eligible);
  }

  /**
   A new game never goes to a row when an open row of the table has the same cap, is no busier in any respect
   and visibly less busy in one: less CPU, a lower wake rate or fewer games.
   */
  lemma LessBusyIsPreferred(shards: seq<ShardRow>, required: nat, now: nat, a: ShardRow, b: ShardRow)
    requires a in shards && OpenFor(a, required, now) && NoBusier(a, b) && VisiblyLessBusy(a, b)
    ensures Decide(shards, required, now, None).Place? && Decide(shards, required, now, None).shard != b
  {
    PlacesExactlyOpen(shards, required, now, None);
    EligibleIsOpen(a, required, now);
    EligibleRowsMembers(shards, required, now);
    BestIsMinimal(EligibleRows(shards, required, now));
    ScoreStrictExactly(a, b);
  }

  /** Of two open rows the visibly less busy one wins in either order. */
  lemma LessBusyWins(required: nat, now: nat, a: ShardRow, b: ShardRow)
    requires OpenFor(a, required, now) && NoBusier(a, b) && VisiblyLessBusy(a, b)
    ensures Decide([a, b], required, now, None) == Place(a) == Decide([b, a], required, now, None)
  {
    LessBusyIsPreferred([a, b], required, now, a, b);
    LessBusyIsPreferred([b, a], required, now, a, b);
    PlacesExactlyOpen([a, b], required, now, None);
    PlacesExactlyOpen([b, a], required, now, None);
  }

  // ----- refusals --------------------------------------------------------------------------

  /** `ContractOutOfRange` is exactly "rows exist and none supports the contract". */
  lemma ContractRefusalExact(shards: seq<ShardRow>, required: nat, now: nat, active: Option<string>)
    ensures Decide(shards, required, now, active).ContractOutOfRange?
            <==> shards != [] && forall s :: s in shards ==> !InRange(s, required)
    ensures Decide(shards, required, now, active).NoEligibleShards?
            <==> (shards == [] || AnySupports(shards, required))
                 && forall s :: s in shards ==> !IsEligible(s, required, now)
  {
    var eligible := EligibleRows(shards, required, now);
    EligibleRowsMembers(shards, required, now);
    if eligible != [] {
      assert eligible[0] in eligible;
    }
  }

  /** What a refusal reports: the contract asked for, and every listed range in order, or the number of rows. */
  lemma RefusalReport(shards: seq<ShardRow>, required: nat, now: nat, active: Option<string>)
    ensures match Decide(shards, required, now, active)
            case Place(_) => exists s :: s in shards && OpenFor(s, required, now)
            case ContractOutOfRange(asked, ranges) =>
              && asked == required && |ranges| == |shards| > 0
              && forall i :: 0 <= i < |shards| ==>
                   ranges[i] == (shards[i].contractMin, shards[i].contractMax)
                   && !(ranges[i].0 <= required <= ranges[i].1)
            case NoEligibleShards(asked, seen) =>
              && asked == required && seen == |shards|
              && (forall s :: s in shards ==> !OpenFor(s, required, now))
              && (seen > 0 ==> exists s :: s in shards && s.contractMin <= required <= s.contractMax)
  {
    PlacesExactlyOpen(shards, required, now, active);
    ContractRefusalExact(shards, required, now, active);
    assert forall i :: 0 <= i < |shards| ==> shards[i] in shards;
    assert AnySupports(shards, required)
           <==> exists s :: s in shards && s.contractMin <= required <= s.contractMax;
  }

  /** The two tables differ at most in health, status, freshness, wake flag, capacity and load. */
  ghost predicate SameContracts(a: seq<ShardRow>, b: seq<ShardRow>) {
    |a| == |b| && forall i :: 0 <= i < |a| ==>
      a[i].contractMin == b[i].contractMin && a[i].contractMax == b[i].contractMax
  }

  /** No repair of the other gates turns a contract refusal into a placement. */
  lemma ContractRefusalStable(
    shards: seq<ShardRow>, repaired: seq<ShardRow>, required: nat, now: nat, now': nat,
    active: Option<string>, active': Option<string>)
    requires Decide(shards, required, now, active).ContractOutOfRange?
    requires SameContracts(shards, repaired)
    ensures Decide(repaired, required, now', active') == Decide(shards, required, now, active)
  {
    ContractRefusalExact(shards, required, now, active);
    forall s | s in repaired
      ensures !InRange(s, required)
    {
      var i :| 0 <= i < |repaired| && repaired[i] == s;
      assert shards[i] in shards;
    }
    ContractRefusalExact(repaired, required, now', active');
    assert Ranges(repaired) == Ranges(shards);
  }

  /** Same row with the non-contract gates opened. */
  function Repair(s: ShardRow, now: nat): ShardRow {
    s.(status := "healthy", healthy := true, acceptingWakes := true, lastSeenAt := now,
       activeGames := 0, currentGameCount := Some(0), maxGames := None)
  }

  /** `NoEligibleShards` on a non-empty table is repairable at one in-range row alone. */
  lemma NoEligibleIsRepairable(shards: seq<ShardRow>, required: nat, now: nat, active: Option<string>)
    returns (i: nat)
    requires shards != [] && Decide(shards, required, now, active).NoEligibleShards?
    ensures i < |shards| && InRange(shards[i], required)
    ensures Decide(shards[i := Repair(shards[i], now)], required, now, active)
            == Place(Repair(shards[i], now))
  {
    ContractRefusalExact(shards, required, now, active);
    var s :| s in shards && InRange(s, required);
    i :| 0 <= i < |shards| && shards[i] == s;
    var row := Repair(s, now);
    var shards' := shards[i := row];
    EligibleRowsMembers(shards', required, now);
    ContractRefusalExact(shards', required, now, active);
    assert row == shards'[i] && row in shards' && IsEligible(row, required, now);
    PlacedShardPassesGates(shards', required, now, active);
    var d := Decide(shards', required, now, active);
    assert forall k :: 0 <= k < |shards'| && k != i ==> shards'[k] in shards;
  }
}
