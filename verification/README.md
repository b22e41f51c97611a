# Placement router and demo bookkeeping: a Dafny model

The project models two pieces of the repository and proves properties of them.

* `orchestration/placement-router/src/main.rs`: the router that assigns games to shards. Any number of
  stateless routers race on one Redis row per game; each reads the row, filters and scores the shard table,
  and claims the row with conditional SETs.
* `examples/demo-platform/public/app.js`: the demo client's measurement bookkeeping.

## How it is modelled

| module | part of the program | form |
|---|---|---|
| `Scheduler` | gates, score, pick, stickiness, refusals | functions, and the pick loop as a method |
| `ClaimProtocol` | the claim as a transition system: one Redis command or clock read is one atomic step | states, steps, runs |
| `ClaimLinearizability`, `ColdRace`, `Fencing`, `SerialRuns` | what holds over all runs, under stated hypotheses | lemmas over runs |
| `Provenance` | where stored and returned rows and refusals of a run come from, told by its steps alone | lemmas over runs |
| `Response` | the response built from a claim: which shard it names and which gates that shard meets | functions and lemmas |
| `Witnesses` | families of runs that show which claims fail and why the hypotheses are there | constructed runs |
| `ClaimDirectory` | the claim as the imperative sequence of commands against a mutable directory | class |
| `Fleet` | whole sequences of new-game placements: capacity | functions and lemmas |
| `Balance` | how evenly those placements spread over alike shards | lemmas |
| `StaleReports` | placement while every decision sees counts some placements old | runs and lemmas |
| `ShardScan` | SCAN batches, MGET, skipping of missing and malformed rows | method with two loops |
| `Metrics` | the four counters, one `fetch_add` per step | transition system |
| `UrlCodec`, `Traceparent` | percent-encoding, WebSocket URL, trace header | functions, methods, inverse parsers |
| `SampleWindow`, `DemoPerf` | sample window, percentile, tick gaps, pending and completed inputs | classes and their specification functions |
| `InputHistory` | what the measured times of an input mean, told by the events alone | lemmas over runs |

In the transition system a request carries a program counter and the locals it has captured: the row it
read, its shard snapshot, its decision time, its pick and the row it wants to store. The clock value a
router reads and the table it scans are parameters of the step, so by default nothing ties them to anything;
`SharedClock` is the hypothesis that all reads come from one nondecreasing clock. Rows can vanish at any step
(expiry, or a Broker's release), any request can fail at any point, and the reply of a SET that took effect
can be lost. Deletions, losses and failures are part of every theorem unless it says otherwise.

## What the pages say and the code does not do

* `docs-next/subsystems/placement-and-wake.md:146-160` calls the generation a monotonic token. Overlapping
  claims can lower it: `StaleRefreshRegresses`, `SupersedesRegress` and, through a deletion,
  `DeletionRegresses` build such runs for all shards and times. `MonotonicExactly` says for every run when the
  stored generations are monotonic: exactly when no write is overtaken by another request's.
  `SerialGenerationsNondecreasing` shows that claims which do not overlap never lower it.
* `docs-next/subsystems/placement-and-wake.md:87-97` (guarantee #16) wants the required contract of every accepted
  placement in the range of the shard it names. The response is looked up among all shards, not the eligible
  ones, so a router that loses a cold race can name a shard out of contract (`LoserAnswersOutOfContract`), and
  just so a draining, stale or full one (`LoserAnswersFailingShard`). `ResponseOutsideGatesExactly` says for
  every run that this path is the only one; `ResponseInContract` gives the condition on the snapshot.
* The response names the shard found in the router's own snapshot, or its own pick when the claimed shard is
  not listed there. `LoserAnswersOwnPick` gives runs where response and directory disagree;
  `ResponseMatchesDirectory` says exactly when they agree on completion.
* A refresh of a row that vanished returns a placement nobody stored (`DeletedRowReturnsUnheld`);
  `UnheldPlacementNeedsDelete` gives the exact step.
* Greedy balance holds for capped shards. For uncapped ones the score is flat from 200 games on, and
  `UncappedBalanceExactly` gives the exact number of placements that keep the balance.
* The trace header parser accepts what section 3.2 of W3C Trace Context forbids: a version that is not
  lower-case hex (or is `ff`), an all-zero parent id and upper-case digits. `DeviationsAccepted` shows each,
  `AcceptedConformsExactly` says which accepted headers conform. It also refuses what section 3.2.4 foresees:
  a header of a higher version with further fields. `ConformingAcceptedExactly` says that a conforming header
  is accepted exactly when it has four fields; `LongHeaderRefused` shows the others.
* A cap is kept only as far as the reports are fresh. Shards report every two seconds
  (`docs-next/subsystems/placement-and-wake.md:119-143`); a report up to L placements old lets a shard run at
  most L games over its cap (`OverbookingBounded`), and that many are reached (`OverbookingReached`).

## Model

| member | source | states |
|---|---|---|
| ClaimProtocol.ReachableRowsOk | orchestration/placement-router/src/main.rs:709-770 | From an empty directory with a shared clock, in every interleaving, every stored row, every row held in flight and every returned placement carries its own game id, names its shard as broker, has placed-at equal to generation, and generation <= refreshed-at <= clock; a draft is never older than the row its author read |
| ClaimProtocol.TerminalStays | orchestration/placement-router/src/main.rs:746-771 | A finished request keeps its outcome for the rest of the run |
| ClaimLinearizability.ClaimLinearizable | orchestration/placement-router/src/main.rs:703-771 | For any routers, clocks and interleaving, a claim during whose call the row is never deleted returns a placement the directory held at an instant inside the call, on every return path |
| ClaimLinearizability.UnheldPlacementNeedsDelete | orchestration/placement-router/src/main.rs:750-770 | With no hypothesis: the returned placement is not the stored row on completion exactly when the second SET found no row, and then a deletion fell between first read and that SET |
| ClaimLinearizability.StoredRowsPassedGates | orchestration/placement-router/src/main.rs:487-543 | Every row stored at any point of any run was written by a request whose own snapshot lists that shard as open at its own decision time (healthy, accepting wakes, seen within 30 s, in contract, below its cap); game, broker id, placed-at and generation are those of that claim, and the machine id is the one the shard's broker names, or none |
| ClaimProtocol.LostReplyFails | orchestration/placement-router/src/main.rs:736-769 | A claim whose SET reply is lost, or that fails anywhere, ends in an error for good |
| Provenance.StoredRowExplained | orchestration/placement-router/src/main.rs:432-771 | Every row stored in any run goes back to one request that arrived, read the directory, decided and drafted in this order; the shard was open in the table it scanned (and is the game's own one if that was open), and every field of the row follows from that shard, the row its first GET returned, and its clock reads |
| Provenance.ReturnedRowExplained | orchestration/placement-router/src/main.rs:703-771 | Every placement a claim returns is explained in the same way, by its own steps or, when it is not its own draft, another request's |
| Provenance.DraftExplained | orchestration/placement-router/src/main.rs:709-727 | So is every row a request drafts, by its own steps |
| Provenance.RefusalExplained | orchestration/placement-router/src/main.rs:487-526 | A refused request scanned a table without an open row at its own decision time; the refusal names the contract it arrived with, is a contract refusal exactly when rows exist and none is in range, and reports every listed range or the number of rows |
| Response.ResponseInContract | orchestration/placement-router/src/main.rs:539-543 | With one row per shard id, the shard named in the response supports the required contract if and only if every snapshot row of the returned placement's shard does; the same for all gates together; both always hold when the claim got the shard it asked for |
| Response.ResponseOutsideGatesExactly | orchestration/placement-router/src/main.rs:529-543 | In every run, a completing claim answers with a shard outside the contract (or failing any gate) if and only if it read no row at first and reads back the row of a shard other than its pick that its own snapshot lists as failing |
| Response.ResponseMatchesDirectory | orchestration/placement-router/src/main.rs:539-543 | When a claim completes, the directory holds a row of the shard the response names exactly when the completing step was not a second SET over a missing row and the router's snapshot lists the returned shard |
| Response.ResponseMatchesPlacement | orchestration/placement-router/src/main.rs:540-543 | The response names the shard of the returned placement exactly when the snapshot lists that shard |
| ColdRace.ColdRaceAgreement | orchestration/placement-router/src/main.rs:529-535 | From no row and no claim in flight, without deletions and with readers finding the row's shard eligible: at most one NX succeeds (one as soon as a claim completes), every completed claim returns the winner's shard and generation, the stored row never changes either |
| ColdRace.ColdInvHolds | orchestration/placement-router/src/main.rs:710-755 | The invariant of such a segment, and that the number of successful NX writes is 1 once a row exists and 0 before |
| Fencing.CurrentReaderKeepsFence | orchestration/placement-router/src/main.rs:709-721 | A write whose author's first read still describes the directory: over a row it never lowers the generation, keeps it with the shard, and on a shard change raises it exactly when the clock has moved on; where there was and is no row it stores its own clock read |
| Fencing.MonotonicExactly | orchestration/placement-router/src/main.rs:703-771 | In every run from an empty directory with a shared clock, deletions and failures included, the generations stored for a game never decrease if and only if no write is overtaken: no other request's write of a larger generation falls between the moment the author fixed its generation (first GET of a refresh, draft otherwise) and its own write |
| Fencing.RegressionNeedsOverlap | orchestration/placement-router/src/main.rs:730-770 | Whenever a write stores a smaller generation than the write before it, the row deleted in between or not, that earlier write is another request's and fell inside this claim, after its first GET (refresh) or its draft (otherwise) |
| SerialRuns.SerialGenerationsNondecreasing | orchestration/placement-router/src/main.rs:703-771 | When claims do not overlap, over all expiries, failures and shard tables, a claim that completes later never gets a smaller generation |
| SerialRuns.SerialStickiness | orchestration/placement-router/src/main.rs:491-543 | When claims do not overlap, a present row changes shard only by a request that read that very row and in whose snapshot its shard was not eligible, and the generation does not fall |
| SerialRuns.CompletionReturnsDraft | orchestration/placement-router/src/main.rs:735-770 | In serial runs a completing claim returns its own draft, at least as new as everything issued before, and no other row is stored |
| Witnesses.StaleRefreshRegresses | orchestration/placement-router/src/main.rs:730-748 | For any two shards and t1 < t2 there is a run whose last write puts shard and generation t1 back over generation t2 |
| Witnesses.SupersedesRegress | orchestration/placement-router/src/main.rs:750-770 | For any three shards and t1 < t2 overlapping takeovers end with the older draft stored last |
| Witnesses.DeletionRegresses | orchestration/placement-router/src/main.rs:709-746 | For any shards and t1 < t2 a run in which generation t2 is stored, the row is deleted, and a claim that read no row then stores generation t1 |
| Witnesses.DeletedRowReturnsUnheld | orchestration/placement-router/src/main.rs:757-770 | With a deletion in the call, a run whose returned placement was never held at any instant |
| Witnesses.LoserAnswersOwnPick | orchestration/placement-router/src/main.rs:540-543 | A run in which the response names one shard and the directory row it returns another |
| Witnesses.LoserAnswersFailingShard | orchestration/placement-router/src/main.rs:540-543 | For every shard row that fails a gate there is a run whose response is that very row |
| Witnesses.LoserAnswersOutOfContract | orchestration/placement-router/src/main.rs:540-543 | A run whose response names a shard that does not support the required contract |
| ClaimDirectory.ActiveGameDirectory.ClaimActiveGame | orchestration/placement-router/src/main.rs:703-771 | The imperative claim, uninterrupted: what it stores and returns, by what was stored and what the caller had read; a row of its own carries the shard's id and machine, and the placed-at and generation it read on a refresh, else its own clock read |
| ClaimDirectory.UninterruptedClaim | orchestration/placement-router/src/main.rs:735-770 | Running the protocol's steps with nothing in between gives the imperative claim's outcome |
| ClaimDirectory.UninterruptedClaimStores | orchestration/placement-router/src/main.rs:730-770 | An uninterrupted claim leaves its result stored except exactly when it refreshes a row that is gone, and touches no other game |
| Scheduler.PlacedShardPassesGates | orchestration/placement-router/src/main.rs:491-535 | A placed shard comes from the table and passed every gate, each stated in the row's own fields |
| Scheduler.PlacesExactlyOpen | orchestration/placement-router/src/main.rs:773-795 | A table places a game if and only if it lists a row that is healthy, has status "healthy", accepts wakes, was seen within 30 s, has the contract in range and, when capped, reports fewer games than its cap (the current count if given, else the active games) |
| Scheduler.RefusalReport | orchestration/placement-router/src/main.rs:496-526 | A refusal reports the contract asked for and every listed range in order, none containing it, or the number of rows, none open |
| Scheduler.LessBusyIsPreferred | orchestration/placement-router/src/main.rs:797-817 | A new game never goes to a row when an open row has the same cap, is no busier in any respect and visibly less busy in CPU, wake rate or games |
| Scheduler.LessBusyWins | orchestration/placement-router/src/main.rs:797-817 | Of two such rows the less busy one is picked in either order |
| Scheduler.ScoreStrictExactly | orchestration/placement-router/src/main.rs:801-808 | A row no busier than another with the same cap scores less if and only if it is less busy within the range the score sees: CPU in 0 to 100, wake rate up to 100, games below 200 or twice the cap |
| Scheduler.CpuWeight | orchestration/placement-router/src/main.rs:805-808 | Rows alike otherwise differ by exactly 0.15 per 100 points of CPU within 0 to 100, and not outside |
| Scheduler.WakeWeight | orchestration/placement-router/src/main.rs:806-808 | Rows alike otherwise differ by exactly 0.05 per 50 units of wake rate up to 100, and not beyond |
| Scheduler.GameWeight | orchestration/placement-router/src/main.rs:801-808 | On an idle row a game weighs 0.45 over the cap up to twice the cap, and 0.0035 up to 200 games; no cap weighs like 100, cap 0 like 1 |
| Scheduler.StickyExactly | orchestration/placement-router/src/main.rs:528-535 | The active shard is kept exactly when one of its rows is eligible, whatever the scores |
| Scheduler.FreshPickIsFirstMin | orchestration/placement-router/src/main.rs:528-535 | Otherwise the pick is the earliest minimum of the eligible rows |
| Scheduler.ContractRefusalExact | orchestration/placement-router/src/main.rs:496-526 | Both refusals characterised exactly in terms of the table |
| Scheduler.ContractRefusalStable | orchestration/placement-router/src/main.rs:501-517 | No change of health, status, freshness, wake flag, capacity, load, time or active shard turns a contract refusal into anything else |
| Scheduler.NoEligibleIsRepairable | orchestration/placement-router/src/main.rs:518-526 | A no-eligible refusal on a non-empty table is turned into a placement by repairing one in-range row's other gates |
| Scheduler.PickBestShard | orchestration/placement-router/src/main.rs:797-817 | The loop returns the earliest row of minimal score |
| Scheduler.BestIsFirstMin | orchestration/placement-router/src/main.rs:799-816 | The specification function of the loop is the earliest row of minimal score |
| Scheduler.FirstMinUnique | orchestration/placement-router/src/main.rs:809-813 | There is only one earliest minimum |
| Scheduler.MinScorePermutationInvariant | orchestration/placement-router/src/main.rs:797-817 | The minimal score does not depend on the order of the rows |
| Scheduler.ScoreMonotone | orchestration/placement-router/src/main.rs:801-808 | Monotone in count, CPU and wake rate, antitone in the cap |
| Scheduler.LoadStrict | orchestration/placement-router/src/main.rs:801-808 | Below twice the cap the score tells any two counts apart |
| Scheduler.ScoreBounds | orchestration/placement-router/src/main.rs:803-808 | Scores lie in [0, 1.85], 1.85 is attained, below 1.40 for an eligible capped shard |
| Fleet.CapacityConserved | orchestration/placement-router/src/main.rs:786-817 | Without uncapped candidates: free slots drop by one per acceptance, request n is accepted exactly when n is below the initial free slots, caps are never exceeded |
| Fleet.NeverOverfilled | orchestration/placement-router/src/main.rs:786-795 | No capped shard is filled past its cap, whatever else is in the fleet |
| Fleet.GamesConserved | orchestration/placement-router/src/main.rs:491-526 | The fleet gains exactly the accepted games: all of them with an uncapped candidate, else at most the initial free slots |
| Fleet.UncappedNeverRefuses | orchestration/placement-router/src/main.rs:786-791 | With an uncapped candidate nothing is refused |
| Fleet.BestIndexIsDecision | orchestration/placement-router/src/main.rs:491-535 | The fleet's pick by table index is the router's decision |
| Balance.GreedyBalance | orchestration/placement-router/src/main.rs:797-817 | When the rows that pass the other gates are capped, with equal cap, CPU and wake rate, counts within one of each other stay so after every number of placements, whatever else the table lists |
| Balance.FillCommutes | orchestration/placement-router/src/main.rs:491-526 | Rows that fail a gate other than capacity never influence a run of placements |
| Balance.UncappedBalanceExactly | orchestration/placement-router/src/main.rs:797-817 | For alike uncapped candidates balance is exact over whole runs: with some count below 200 it holds after n placements if and only if there is one candidate or n is at most one more than the games missing to 200; otherwise if and only if the first candidate stays at most one ahead of every other |
| Balance.UncappedPilesUp | orchestration/placement-router/src/main.rs:800-813 | Once all counts are at least 200 every further game lands on the first row and no other row changes |
| StaleReports.OverbookingBounded | orchestration/placement-router/src/main.rs:786-795 | When every decision sees each count at most L placements old, a shard that starts within its cap never holds more than cap + L games |
| StaleReports.OverbookingReached | orchestration/placement-router/src/main.rs:786-795 | For every positive cap and every L there is such a run that ends at exactly cap + L |
| ShardScan.FetchShards | orchestration/placement-router/src/main.rs:668-701 | The loops return the well-formed rows of the scanned keys in order; a row is returned if and only if it is the well-formed row of a key in a reply before which no reply had cursor 0 |
| ShardScan.ScanStopsAtCursorZero | orchestration/placement-router/src/main.rs:673-688 | The scanned keys are the batches up to and including the first one that comes with cursor 0 |
| ShardScan.ScannedExactly | orchestration/placement-router/src/main.rs:673-688 | A key is scanned if and only if it is in a reply before which no reply had cursor 0 |
| ShardScan.RowsKeepOrder | orchestration/placement-router/src/main.rs:692-700 | The rows stand in the order of their keys, one for each well-formed key |
| ShardScan.ScanInsensitive | orchestration/placement-router/src/main.rs:668-701 | Repeated, vanished and malformed keys change neither the chosen shard, nor the kind of refusal, nor the row the response looks up by shard id |
| ShardScan.CleanedIsDistinct | orchestration/placement-router/src/main.rs:692-699 | The comparison table lists every well-formed key exactly once |
| Metrics.CountersConserved | orchestration/placement-router/src/main.rs:441-595 | In every interleaving requests = accepted + rejected + in flight + aborted, and contract-rejected <= rejected <= requests |
| Metrics.CountersCountSteps | orchestration/placement-router/src/main.rs:441-595 | Each counter rises by the number of its events over any run; contract refusals whose second increment is still open are the only ones the contract counter lacks |
| Metrics.OneVerdict | orchestration/placement-router/src/main.rs:496-526 | A request adds at most once to accepted and rejected together |
| UrlCodec.UrlEncode | orchestration/placement-router/src/main.rs:852-863 | The loop computes the encoding, and decoding gives the input back |
| UrlCodec.DecodeEncode | orchestration/placement-router/src/main.rs:852-863 | Percent-decoding inverts the encoding for all byte strings |
| UrlCodec.EncodeInjective | orchestration/placement-router/src/main.rs:852-863 | Different byte strings have different encodings |
| UrlCodec.EncodeIsCanonical | orchestration/placement-router/src/main.rs:854-860 | Output is unreserved characters and upper-case `%HH` of bytes that need it, of length n to 3n |
| UrlCodec.EncodeByteExactly | orchestration/placement-router/src/main.rs:854-860 | A letter, digit, `-`, `.`, `_` or `~` stands for itself, any other byte becomes `%` and its two upper-case hex digits |
| UrlCodec.EncodeIdentityExactly | orchestration/placement-router/src/main.rs:854-860 | The encoding leaves a text alone exactly when all its bytes are of that kind |
| UrlCodec.CanonicalIsEncoded | orchestration/placement-router/src/main.rs:854-860 | Every text of that form is the encoding of what it decodes to |
| UrlCodec.WsUrlRoundTrip | orchestration/placement-router/src/main.rs:819-850 | Splitting the URL at its last `?`, then `&` and `=`, and decoding recovers the location and exactly the three parameters |
| UrlCodec.WsUrlValues | orchestration/placement-router/src/main.rs:839-849 | Reading the URL back gives the token under `placementToken`, the game under `gameId`, the player under `playerId`, and nothing else |
| UrlCodec.WsUrlLocation | orchestration/placement-router/src/main.rs:820-838 | The location read back is the broker's public URL (else the row's own) with its scheme upgraded, then the broker's path when it has one (else `/gateway`), always starting with a slash |
| UrlCodec.OtherSchemesKept | orchestration/placement-router/src/main.rs:825-827 | An address without either prefix is left as it is |
| UrlCodec.WsUrlInjective | orchestration/placement-router/src/main.rs:839-849 | On one shard, different token, game or player never share a URL |
| UrlCodec.SchemeUpgraded | orchestration/placement-router/src/main.rs:825-827 | http becomes ws and https wss with nothing else changed, exactly when the other prefix does not occur later |
| Traceparent.TraceIdFromHeaders | orchestration/placement-router/src/main.rs:615-635 | The iterator walk computes the specified trace id |
| Traceparent.AcceptedExactly | orchestration/placement-router/src/main.rs:617-634 | A trace id comes out exactly for headers of printable ASCII or tabs that are four fields of the required lengths and digits with a second field that is not all zero; it spells the digits of the second field in lower case |
| Traceparent.PrintParses | orchestration/placement-router/src/main.rs:617-634 | Joining four such fields with hyphens parses to the lower-cased trace id |
| Traceparent.ResultCanonical | orchestration/placement-router/src/main.rs:622-634 | Every result is 32 lower-case hex digits, not all zero, and survives printing and parsing again |
| Traceparent.ConformingAccepted | orchestration/placement-router/src/main.rs:615-635 | Every header of four fields that conforms to section 3.2.2 of W3C Trace Context is accepted and its trace id comes out unchanged |
| Traceparent.ConformingAcceptedExactly | orchestration/placement-router/src/main.rs:615-635 | A conforming header, those of higher versions with further fields included (section 3.2.4), is accepted if and only if it has no further field |
| Traceparent.LongHeaderRefused | orchestration/placement-router/src/main.rs:615-635 | Any conforming header with its version raised and a field added still conforms and is refused |
| Traceparent.TailRefused | orchestration/placement-router/src/main.rs:615-635 | A header with a fifth field is refused whatever the fields hold |
| Traceparent.AcceptedConformsExactly | orchestration/placement-router/src/main.rs:622-632 | An accepted header conforms if and only if its version is lower-case hex other than ff, its parent id is not all zero, and no other field holds an upper-case digit |
| Traceparent.NonConformingAccepted | orchestration/placement-router/src/main.rs:622-632 | Every header of the accepted shape that misses one of those conditions is accepted all the same |
| Traceparent.DeviationsAccepted | orchestration/placement-router/src/main.rs:622-632 | Each kind of deviation occurs: a version that is not hex, version ff, a zero parent id, an upper-case digit |
| SampleWindow.Window.PushSample | examples/demo-platform/public/app.js:366-370 | One push, in place |
| SampleWindow.WindowHoldsLastFinite | examples/demo-platform/public/app.js:366-370 | After any stream the window is exactly the last `max` finite samples in order |
| SampleWindow.Percentile | examples/demo-platform/public/app.js:372-377 | A member r with at least k samples <= r and fewer than k below it, k the clamped rank; 0 for no samples |
| SampleWindow.PercentileMeaning | examples/demo-platform/public/app.js:372-377 | r is that percentile if and only if it is a sample, at least q * n samples are up to it (all from q = 1 on), and none or fewer than q * n are below it |
| SampleWindow.PercentileMonotone | examples/demo-platform/public/app.js:372-377 | Independent of order, monotone in q |
| DemoPerf.TicksConserved | examples/demo-platform/public/app.js:205-213 | Numbered frames plus gaps equal last - first + 1 if and only if the ticks strictly increase |
| DemoPerf.TickAccounting | examples/demo-platform/public/app.js:210-213 | For any stream, by how much repeated and earlier ticks break that sum |
| DemoPerf.Perf.OnStateTick | examples/demo-platform/public/app.js:205-213 | The in-place update follows the tick log |
| DemoPerf.Perf.ThrowInput | examples/demo-platform/public/app.js:250-258 | A throw adds one pending input under the next number |
| DemoPerf.Perf.MarkRelevantState | examples/demo-platform/public/app.js:291-298 | The loop stamps exactly the unstamped pending inputs of the cube that moved |
| DemoPerf.Perf.MarkVisibleMotion | examples/demo-platform/public/app.js:300-318 | The loop moves exactly the visibly moved inputs from pending to completed, in order, keeping the last 60 |
| DemoPerf.InputsConserved | examples/demo-platform/public/app.js:250-318 | Over every run each issued number is pending or completed, exactly once, and no other number appears |
| InputHistory.ThrowsExplained | examples/demo-platform/public/app.js:250-318 | Over every run a throw is still pending if and only if no rendered frame has shown its cube more than 0.025 from where it was thrown; otherwise it completed with the first such frame, and the entry holds the differences of the times of throw, first reporting state and frame |
| InputHistory.EntriesExplained | examples/demo-platform/public/app.js:291-318 | Every pending and every completed entry of a run belongs to one throw and agrees with its events in every field |

## Left out

- Floating point: scores and percentile ranks are exact reals; the program rounds.
- Integer width: counters, timestamps and counts are unbounded; the program uses u32 and u64, and its counters wrap.
- Broker writes: the Broker's own claim of the same row (`runtime/broker/src/adapters.mts:74-99`) is not part of this model; its release is covered as a deletion at any time.
- Malformed active-game rows: rows written by routers always parse, so the parse error of `fetch_active_game` appears only as a request that fails.
- Redis: single commands are atomic, a scan is a finite sequence of replies, and the time to live is a deletion at any time.
- Requests before the directory read: blank ids, unknown games and bundles end a request without touching the row; they appear only as aborted requests in the counters.
- Tokens, run ids and UUIDs: the token is an arbitrary byte string.
- Scraping the counters: the metrics page reads the four counters one after the other; the conservation law is about one instant, not about such a page.
- Traceparent.TraceIdFromHeaders: header lookup is not modelled, only its value; bytes outside printable ASCII and tab are rejected as in the header library.
- DemoPerf.Perf.OnStateTick: receive gaps go through the sample window of `SampleWindow`; the row loop of `onState` is the method for one row, and frame counts by row are not kept.
- DemoPerf.TicksConserved: tick numbers are integers; the client would also take fractions.
- SampleWindow.Percentile: the library sort is an insertion sort on a copy; a fraction that is not a number is not modelled.
- Rendering, networking, HTTP handlers, configuration and telemetry: no modelled logic.
