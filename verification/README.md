# FraudGraph in Dafny

A model of the stateful cores of FraudGraph, and proofs about them: the in-memory transfer graph of the stream engine
with its checks, velocity windows and profiles; the analyst agent's claim checker, investigation graph and question
answering; its answer cache and rate limiter; the traffic generator's loop; and the dashboard feed's queue.

Classes stand for the classes of the source, with their fields updated in place; ghost fields keep what the contracts
speak of, such as the log of all transfers. Each method is proved against functions or predicates over such a log, and
the lemmas are about those.

| file | what it models |
|---|---|
| UnionFind | components of accounts, by connectivity over the unions so far |
| Walks, CycleDetector, CycleSearch | the bounded search for a cycle: as a function, its theorems, and the search over a mutable path |
| EdgeStore, LazyDeques, History | out-edge deques with lazy expiry and cap, against the log of transfers |
| PassThroughChains, Rings | chain depths and what they mean; rings seen hop by hop |
| TransactionGraph, Neighborhood, GraphCheck | the graph itself, its read API, and the two signals drawn from it |
| VelocityWindows, Welford, Dedup, CheckProcessor | bucketed counts, profiles, deduplication, and the stages together |
| Decimals, Payloads, Verify, Publication | numbers as quoted, numbers in evidence, the claim checker, evidence as published |
| Investigation, Ask, AnswerCache, RateLimit | the agent's runs, answers to questions, cache and quota |
| Runner, FeedBroadcaster | the generator's loop; the feed's queue |

## What the code does where its comments say more

- Expiry stops at the first live edge (`TransactionGraph.java:152-158`). One call removes no edge live at its own time,
  and all that are not if and only if no expired edge stands behind a live one (`ExpireExactIff`), which time order gives.
  Calls out of order can lose a live edge: a later call removes it for an earlier one (`LaterCallForgets`). What a reader
  misses is too old for it, or some call came more than the TTL after it (`MissingAt`, `OutEdges`).
- The cycle search prunes by the current path, not by a set of visited accounts, unlike its comment
  (`CycleDetector.java:15`). That is what makes it complete, and why its bound on lookups is a full tree's.
- A repayment from the receiver that is listed first is returned as a cycle of two, and the ring check drops it, so it
  hides a longer ring (`RepaymentHidesRing`). `RingSuspectIff` says exactly when the signal fires.
- An event later than a velocity read can share its bucket and be counted (`LaterEventIsCounted`); `CountAtMostIff` says
  exactly when the read exceeds the sliding count.
- With a ratio band that contains zero, an inbound of no amount counts as forwarded by any transfer, and chain depth says
  nothing about amounts, unless no arrival is kept or looked back at (`AmountsBoundedIff`).
- Deduplication lets a repeated id through exactly if it comes after its entry was evicted (`ForwardsFirstsIff`).
- "Half a unit in the claim's last place and no more" (`verify.py:141-143`) holds exactly if the claim has no trailing
  zero after the point and prints without an exponent (`RoomIsLastPlaceIff`). Trailing zeros are dropped first: "4.0"
  passes against 3.6 (`TrailingZeroIsLoose`), and "50%", compared as 0.5, against 0.46 (`RoundPercentIsLoose`). A number
  printed with an exponent gets no such room at all (`TinyPercentIsStrict`).
- An evidence entry with an empty error message fails the check but is published with its payload; no accepted claim
  can cite it, so nothing is lost (`PublishedStillSupports`).
- The generator's loop does not always recover from a host that slept (`runner.py:120-144`). A stale queued event is
  taken out, found stale and put back, and the loop skips ahead only once the clock has passed the next base arrival by
  five seconds. After the skip something is stale exactly if an event queued, or of an episode spawned right after the
  skip, was due more than five seconds before that arrival (`SkipAndSpawnClearsIff`). Such an event stays stale over every
  skip, because event and arrival move alike, and nothing is ever published again (`Runner.Turn`, `Runner.Run`). Without
  one, the turn publishes something unless it ends the loop or sleeps so late that something becomes stale meanwhile. At
  a low rate one sleep jams it, with an event in the queue (`SleepCanJam`) or an episode yet to be spawned (`SpawnCanJam`).
- The feed makes room by looking at the head of its queue only, so a BLOCK tick can be refused while ALLOW ticks wait
  (`RefusedBehindFlagged`), unlike its comment (`FeedBroadcaster.java:35-37`). With `maxQueued` of 0 or less it still
  queues one tick.

## Model

| member | source | states |
|---|---|---|
| `UnionFinds.SameRootIffConnected` | stream-engine/src/main/java/com/fraudgraph/stream/graph/UnionFind.java:17-45 | two accounts have the same root exactly if a walk over the unions so far, in either direction, leads from one to the other |
| `UnionFinds.ClassIsComponent` | stream-engine/src/main/java/com/fraudgraph/stream/graph/UnionFind.java:43-49 | the accounts under a root are exactly the connected component of any of them |
| `UnionFinds.StrangerIsAlone` | stream-engine/src/main/java/com/fraudgraph/stream/graph/UnionFind.java:52-54 | an account no union ever named is a component of one, so the answer 1 without a lookup is right |
| `UnionFinds.RankClimbs` | stream-engine/src/main/java/com/fraudgraph/stream/graph/UnionFind.java:27-45 | along any path of parent links the rank at the end exceeds the rank at the start by at least the number of links |
| `UnionFinds.PathsAreLogarithmic` | stream-engine/src/main/java/com/fraudgraph/stream/graph/UnionFind.java:27-45 | a path of k parent links under a root of size n has 2^k <= n |
| `UnionFinds.CreateKeepsForest` | stream-engine/src/main/java/com/fraudgraph/stream/graph/UnionFind.java:19-24 | a node seen for the first time joins as a root of rank 0 and size 1 and disturbs no other class |
| `UnionFinds.CompressKeepsForest` | stream-engine/src/main/java/com/fraudgraph/stream/graph/UnionFind.java:28-33 | pointing a node straight at its root keeps ranks, sizes and every class |
| `UnionFinds.HangKeepsForest` | stream-engine/src/main/java/com/fraudgraph/stream/graph/UnionFind.java:40-44 | hanging the root of lower or equal rank under the other keeps rank strictly growing toward roots and size the exact class size |
| `UnionFinds.UnionFind.Compress` | stream-engine/src/main/java/com/fraudgraph/stream/graph/UnionFind.java:28-33 | points the path at the root and keeps the forest |
| `UnionFinds.UnionFind.Find` | stream-engine/src/main/java/com/fraudgraph/stream/graph/UnionFind.java:17-35 | returns the root; the unions represented are unchanged, so path compression changes no class; terminates because rank climbs |
| `UnionFinds.UnionFind.Union` | stream-engine/src/main/java/com/fraudgraph/stream/graph/UnionFind.java:37-45 | afterwards exactly one more pair is represented |
| `UnionFinds.UnionFind.ComponentSize` | stream-engine/src/main/java/com/fraudgraph/stream/graph/UnionFind.java:47-49 | the number of accounts connected to the one asked about |
| `UnionFinds.UnionFind.ComponentSizeIfKnown` | stream-engine/src/main/java/com/fraudgraph/stream/graph/UnionFind.java:52-54 | the same number, also for an account never seen |
| `CycleDetector.DfsSound` | stream-engine/src/main/java/com/fraudgraph/stream/graph/CycleDetector.java:35-50 | whatever the search returns extends the path by real edges to the target, without repeating an account, within the bound |
| `CycleDetector.DfsComplete` | stream-engine/src/main/java/com/fraudgraph/stream/graph/CycleDetector.java:35-50 | if any walk without repetition off the current path closes within the bound, the search finds one: pruning by the current path alone loses nothing |
| `CycleDetector.FindCycleSound` | stream-engine/src/main/java/com/fraudgraph/stream/graph/CycleDetector.java:21-33 | a reported cycle is [src, dst, ..., src] over real edges, with distinct accounts inside and at most maxDepth edges |
| `CycleDetector.FindCycleIffWalkBack` | stream-engine/src/main/java/com/fraudgraph/stream/graph/CycleDetector.java:25-50 | for src != dst and maxDepth >= 2 a cycle is reported exactly if a walk of at most maxDepth - 1 edges leads from dst back to src |
| `CycleDetector.LongCycleIff` | stream-engine/src/main/java/com/fraudgraph/stream/graph/CycleDetector.java:35-50 | a cycle of three or more accounts is reported exactly if one exists whose third account is listed before any direct link back to the sender |
| `CycleSearch.Search.Dfs` | stream-engine/src/main/java/com/fraudgraph/stream/graph/CycleDetector.java:35-50 | the search over the mutable path and on-path set computes the function the theorems are about, restores both when it fails, and makes no more lookups than a tree of its depth has inner nodes |
| `CycleSearch.Find` | stream-engine/src/main/java/com/fraudgraph/stream/graph/CycleDetector.java:25-33 | the whole search: result as specified, lookups at most 1 + b + ... + b^(maxDepth-2), deques only expired |
| `EdgeStore.ExpireAgain` | stream-engine/src/main/java/com/fraudgraph/stream/graph/TransactionGraph.java:152-158 | expiring at an earlier and then a later cutoff is expiring at the later one; at a fixed time expiry is idempotent |
| `EdgeStore.SettledIsInvisible` | stream-engine/src/main/java/com/fraudgraph/stream/graph/TransactionGraph.java:143-158 | expiry by a reader changes nothing any reader at the same time sees, neither live edges nor links |
| `EdgeStore.Store.ExpireNode` | stream-engine/src/main/java/com/fraudgraph/stream/graph/TransactionGraph.java:152-158 | drops the leading run of edges older than the cutoff and nothing else |
| `EdgeStore.Store.ReadLive` | stream-engine/src/main/java/com/fraudgraph/stream/graph/TransactionGraph.java:232-237 | returns the live edges in order and leaves just these in the deque; the others are untouched or expired at the same cutoff |
| `EdgeStore.ReadLateThenEarly` | stream-engine/src/main/java/com/fraudgraph/stream/graph/TransactionGraph.java:152-158 | a read at an earlier time after one at a later time sees exactly what the later one left, whatever is live at its own time |
| `EdgeStore.LaterCallForgets` | stream-engine/src/main/java/com/fraudgraph/stream/graph/TransactionGraph.java:152-158 | an edge of time 0 with a TTL of 100, read at 101 and then at 50, is live at 50 and missed |
| `History.MissingAt` | stream-engine/src/main/java/com/fraudgraph/stream/graph/TransactionGraph.java:152-158 | with calls in any order a reader misses a leading part of the ideal deque only: entries too old for it, or that some call came more than the TTL after |
| `EdgeStore.Store.LiveDestinations` | stream-engine/src/main/java/com/fraudgraph/stream/graph/TransactionGraph.java:143-150 | returns the destinations of the live edges in order, duplicates included |
| `EdgeStore.Store.Append` | stream-engine/src/main/java/com/fraudgraph/stream/graph/TransactionGraph.java:69-72 | expires, appends, and keeps the last maxEdgesPerNode |
| `LazyDeques.KeptAfterDrop` | stream-engine/src/main/java/com/fraudgraph/stream/graph/TransactionGraph.java:69-72 | a deque that dropped old entries is still a suffix of the ideal one that misses only what is older than some call's cutoff |
| `LazyDeques.KeptAfterAppend` | stream-engine/src/main/java/com/fraudgraph/stream/graph/TransactionGraph.java:71-72 | so it stays after an append with a cap on both |
| `History.LogKeepsRecent` | stream-engine/src/main/java/com/fraudgraph/stream/graph/TransactionGraph.java:69-76 | the ideal deque of an account holds exactly its last maxEdgesPerNode logged transfers |
| `History.ExpireExactIff` | stream-engine/src/main/java/com/fraudgraph/stream/graph/TransactionGraph.java:152-158 | stopping at the first live edge removes exactly the expired ones if and only if no expired edge stands behind a live one |
| `History.ExpiryLosesNothingLive` | stream-engine/src/main/java/com/fraudgraph/stream/graph/TransactionGraph.java:152-158 | with times in any order no edge that is live at the call's own time is removed |
| `History.ExpiryIsExact` | stream-engine/src/main/java/com/fraudgraph/stream/graph/TransactionGraph.java:69-72 | with calls in time order a reader sees exactly those of the last maxEdgesPerNode transfers with ts >= now - ttl |
| `History.ReadsLog` | stream-engine/src/main/java/com/fraudgraph/stream/graph/TransactionGraph.java:143-158 | with the current call not earlier than the calls before, the links read from the deques are those of the log |
| `PassThroughChains.LastEligibleIsLast` | stream-engine/src/main/java/com/fraudgraph/stream/graph/TransactionGraph.java:107-119 | the inbound chosen is the latest recorded one that is not stamped after the transfer and, if asked for, in the ratio band |
| `PassThroughChains.PassThroughIsTraced` | stream-engine/src/main/java/com/fraudgraph/stream/graph/TransactionGraph.java:98-125 | what the graph answers names the last arrival in the window whose amount is in the ratio band, one link deeper up to ten, or else the last in the window at depth 0: its sender, its amount, the ratio to three decimals (0 for an arrival of nothing) and the whole seconds since; and nothing exactly if no arrival is in the window |
| `PassThroughChains.LogPassThroughIsTraced` | stream-engine/src/main/java/com/fraudgraph/stream/graph/TransactionGraph.java:98-125 | the same over the last maxEdgesPerNode logged transfers into the sender, for what the log says it should answer |
| `PassThroughChains.FreshReadsLog` | stream-engine/src/main/java/com/fraudgraph/stream/graph/TransactionGraph.java:101-106 | in time order, what is left after dropping old arrivals is what the log says arrived within the window |
| `PassThroughChains.PassThroughIsWitnessed` | stream-engine/src/main/java/com/fraudgraph/stream/graph/TransactionGraph.java:98-125 | the depth given to a new transfer is witnessed by an earlier logged one it forwards, whatever the order of times |
| `PassThroughChains.WitnessChain` | stream-engine/src/main/java/com/fraudgraph/stream/graph/TransactionGraph.java:98-125 | a stored depth d comes with a chain of d earlier transfers, each feeding the next account within the window and the ratio band |
| `PassThroughChains.ChainTimes` | stream-engine/src/main/java/com/fraudgraph/stream/graph/TransactionGraph.java:98-125 | a chain of d hops spans no more than d windows |
| `PassThroughChains.ChainBounds` | stream-engine/src/main/java/com/fraudgraph/stream/graph/TransactionGraph.java:98-125 | along it the amount stays between the powers of the ratio band times the origin's, if the band leaves out zero |
| `PassThroughChains.DepthIsHonest` | stream-engine/src/main/java/com/fraudgraph/stream/graph/TransactionGraph.java:98-125 | every stored depth d > 0 has such a chain, d <= 10, and it is within d windows of its origin; if the band leaves out zero, minRatio^d * origin <= amount <= maxRatio^d * origin |
| `PassThroughChains.ExactIsWitnessed` | stream-engine/src/main/java/com/fraudgraph/stream/graph/TransactionGraph.java:98-125 | depths computed from the log in order are witnessed, so everything said of witnessed logs holds of them |
| `PassThroughChains.AmountsBoundedIff` | stream-engine/src/main/java/com/fraudgraph/stream/graph/TransactionGraph.java:113-114 | over all logs in time order with the depths the graph gives, the bounds on amounts hold exactly if the band leaves out zero, the window is negative or no arrival is kept: an inbound of nothing is given the ratio zero |
| `PassThroughChains.ZeroFeedsIsExact` | stream-engine/src/main/java/com/fraudgraph/stream/graph/TransactionGraph.java:113-114 | otherwise a transfer of nothing and one it feeds get the depths 0 and 1 for which they fail |
| `TransactionGraphs.Replay` | stream-engine/src/main/java/com/fraudgraph/stream/graph/TransactionGraph.java:62-83 | every such log without self-transfers is the log of a graph: the one its transfers are added to |
| `TransactionGraphs.AppendKeepsRecord` | stream-engine/src/main/java/com/fraudgraph/stream/graph/TransactionGraph.java:62-76 | recording a transfer keeps the graph's invariant at any time: deques miss only expired edges, arrivals are logged, depths are witnessed |
| `TransactionGraphs.AppendKeepsOrder` | stream-engine/src/main/java/com/fraudgraph/stream/graph/TransactionGraph.java:62-76 | while calls come in time order the depth given is a function of the log alone, and stays so |
| `TransactionGraphs.ComponentCoversCycle` | stream-engine/src/main/java/com/fraudgraph/stream/graph/TransactionGraph.java:78-82 | every account of a cycle over retained edges lies in the sender's component, so the component is at least as large |
| `TransactionGraphs.TransactionGraph.PassThroughFor` | stream-engine/src/main/java/com/fraudgraph/stream/graph/TransactionGraph.java:98-125 | what the transfer forwards, read before it is recorded, names the right arrival and says the right things of it; old arrivals are forgotten and an empty deque removed |
| `TransactionGraphs.TransactionGraph.Scan` | stream-engine/src/main/java/com/fraudgraph/stream/graph/TransactionGraph.java:107-118 | the backward scan finds the latest match, and the latest arrival of all where nothing matches |
| `TransactionGraphs.TransactionGraph.RecordArrival` | stream-engine/src/main/java/com/fraudgraph/stream/graph/TransactionGraph.java:74-76 | appends the arrival and keeps the last maxEdgesPerNode |
| `TransactionGraphs.TransactionGraph.Insert` | stream-engine/src/main/java/com/fraudgraph/stream/graph/TransactionGraph.java:66-76 | records the transfer on both sides with the depth read before it; what it forwards is named as in AddEdge |
| `TransactionGraphs.TransactionGraph.AddEdge` | stream-engine/src/main/java/com/fraudgraph/stream/graph/TransactionGraph.java:62-83 | the log grows by the transfer; the cycle is the one over links live now and fits the component; out-degree and component are the sender's; the arrival it forwards is a logged transfer into the sender within the window, the right one of those held and, in time order, of the recent ones of the log, with its sender, amount, ratio, seconds and depth; in time order the whole view is a function of the log; self-transfers and missing sides only read |
| `TransactionGraphs.TransactionGraph.View` | stream-engine/src/main/java/com/fraudgraph/stream/graph/TransactionGraph.java:127-141 | live out-degree and component size, no cycle, no pass-through, log unchanged |
| `TransactionGraphs.TransactionGraph.OutEdges` | stream-engine/src/main/java/com/fraudgraph/stream/graph/TransactionGraph.java:161-166 | the live out-edges: the recent transfers but for a leading part that is too old now or was for some earlier call; in time order exactly those the log and the TTL give |
| `TransactionGraphs.TransactionGraph.Neighborhood` | stream-engine/src/main/java/com/fraudgraph/stream/graph/TransactionGraph.java:188-212 | exact nodes, distances, edges, cycles and component size as below, and the log unchanged |
| `Neighborhoods.WalksAreSeen` | stream-engine/src/main/java/com/fraudgraph/stream/graph/TransactionGraph.java:195-206 | once the frontier is empty, the end of every live walk of at most depth hops has been seen at no greater distance |
| `Neighborhoods.DoneIsExact` | stream-engine/src/main/java/com/fraudgraph/stream/graph/TransactionGraph.java:195-206 | what has been seen then is exactly the accounts within depth hops, each with its true shortest distance |
| `Neighborhoods.Explore` | stream-engine/src/main/java/com/fraudgraph/stream/graph/TransactionGraph.java:190-206 | the breadth-first walk reaches that state: every account once, every live out-edge of each expanded account once, in order |
| `Neighborhoods.Nearby` | stream-engine/src/main/java/com/fraudgraph/stream/graph/TransactionGraph.java:190-210 | nodes with distance and live out-degree, edges as walked; expiry during the walk changes nothing already read |
| `Neighborhoods.CyclesThrough` | stream-engine/src/main/java/com/fraudgraph/stream/graph/TransactionGraph.java:220-230 | lists exactly the cycles the ring search closes through a live link of the root, no set of accounts twice |
| `Neighborhoods.ListedIsLive` | stream-engine/src/main/java/com/fraudgraph/stream/graph/TransactionGraph.java:220-230 | each listed cycle is live, passes through the root and is within the depth bound |
| `TransactionGraphs.AddThenAsk` | stream-engine/src/main/java/com/fraudgraph/stream/graph/TransactionGraph.java:214-230 | adding a transfer and asking for the sender's neighbourhood at the same time: a cycle reported by the one is listed, over the same accounts, by the other; all listed cycles pass through the sender within the depth bound |
| `Rings.DepthAtHop` | stream-engine/src/main/java/com/fraudgraph/stream/graph/TransactionGraph.java:98-125 | hop i of a ring of k >= 3 accounts with no other transfers has chain depth min(i, 10) |
| `Rings.NoCycleYet` | stream-engine/src/main/java/com/fraudgraph/stream/graph/TransactionGraph.java:80-82 | no hop before the last reports a cycle |
| `Rings.ClosedRing` | stream-engine/src/main/java/com/fraudgraph/stream/graph/CycleDetector.java:25-50 | over the ring's links the search from the closing hop returns exactly the ring if and only if k <= maxDepth |
| `Rings.RingIsSeenHopByHop` | stream-engine/src/test/java/com/fraudgraph/stream/config/TopologyTest.java:145-179 | both together, for any k, ratios in the band, gaps within the window and span within the TTL |
| `Rings.Play` | stream-engine/src/main/java/com/fraudgraph/stream/graph/TransactionGraph.java:62-83 | the same of the calls themselves: of any calls in time order, reads and refused transfers among them, each hop of a ring no other accepted transfer touches is answered with its depth and cycle |
| `GraphCheck.Evaluate` | stream-engine/src/main/java/com/fraudgraph/stream/check/GraphCheck.java:39-51 | the ring signal first, then the pass-through signal, no other, each exactly if the cycle is long enough or the depth large enough, with severity and all evidence: the view's figures, the amounts to two decimals, the counterparty; none for a missing view |
| `GraphCheck.RingSignalIsReal` | stream-engine/src/main/java/com/fraudgraph/stream/check/GraphCheck.java:53-64 | a ring signal carries a live cycle through the transfer of a length between the configured minimum and the depth bound |
| `GraphCheck.RingSuspectIff` | stream-engine/src/main/java/com/fraudgraph/stream/check/GraphCheck.java:53-64 | with minimum length 3 the signal fires exactly if a live ring exists that the receiver's links list before a repayment |
| `GraphCheck.RingSuspectWithoutRepayment` | stream-engine/src/main/java/com/fraudgraph/stream/check/GraphCheck.java:53-64 | so without a live link back it fires exactly if a live ring of 3 to maxCycleDepth edges exists |
| `GraphCheck.RepaymentHidesRing` | stream-engine/src/main/java/com/fraudgraph/stream/graph/CycleDetector.java:38-41 | a repayment listed first hides a longer ring: three accounts show it |
| `GraphCheck.PassThroughSignalIsWitnessed` | stream-engine/src/main/java/com/fraudgraph/stream/check/GraphCheck.java:73-86 | a pass-through signal has a chain of at least the configured depth in the log |
| `GraphCheck.EvaluateTransfer` | stream-engine/src/main/java/com/fraudgraph/stream/check/GraphCheck.java:39-86 | all signals of the view of a transfer just added: a ring signal carries a live cycle, fires at minimum length 3 exactly if a ring is listed before a repayment, and without one exactly if a ring exists; a pass-through signal is raised exactly if the depth logged for the transfer reaches the minimum, and has its chain in the log |
| `VelocityWindows.VelocityWindows.Record` | stream-engine/src/main/java/com/fraudgraph/stream/check/VelocityWindows.java:45-49 | adds the event to its bucket; every bucket holds the fold of its events, for negative times too |
| `VelocityWindows.VelocityWindows.Aggregate` | stream-engine/src/main/java/com/fraudgraph/stream/check/VelocityWindows.java:60-70 | number and sum of the amounts of the user's events whose bucket starts in (ts - window, ts] |
| `VelocityWindows.TotalIs` | stream-engine/src/main/java/com/fraudgraph/stream/check/VelocityWindows.java:60-70 | the fold is the number and the sum of the amounts of those events |
| `VelocityWindows.SixtyBuckets` | stream-engine/src/main/java/com/fraudgraph/stream/check/VelocityWindows.java:60-63 | a read covers exactly sixty bucket positions |
| `VelocityWindows.CountAtLeast` | stream-engine/src/main/java/com/fraudgraph/stream/check/VelocityWindows.java:60-70 | the bucketed count is at least the number of events in [ts - W + B, ts] |
| `VelocityWindows.CountsDiffer` | stream-engine/src/main/java/com/fraudgraph/stream/check/VelocityWindows.java:45-70 | bucketed count + missed = exact count + late: missed are events in (ts - W, ts] whose bucket starts before, late are events after ts that share its bucket |
| `VelocityWindows.CountAtMostIff` | stream-engine/src/main/java/com/fraudgraph/stream/check/VelocityWindows.java:60-70 | so the bucketed count is at most the exact number in (ts - W, ts] exactly if no more events are late than are missed |
| `VelocityWindows.CountAtMost` | stream-engine/src/main/java/com/fraudgraph/stream/check/VelocityWindows.java:60-70 | in particular if no recorded event is later than ts within its bucket |
| `VelocityWindows.LaterEventIsCounted` | stream-engine/src/main/java/com/fraudgraph/stream/check/VelocityWindows.java:45-49 | an event after ts in the same bucket is counted although it is not in the window |
| `VelocityWindows.WindowsNest` | stream-engine/src/main/java/com/fraudgraph/stream/processor/CheckProcessor.java:80-86 | with the same events in all three stores the minute count is at most the five-minute count, and that at most the hour count, in any order of events |
| `VelocityWindows.CurrentEventCounts` | stream-engine/src/main/java/com/fraudgraph/stream/processor/CheckProcessor.java:79-86 | the transaction being checked counts against itself |
| `Welford.AccumulatorIsExact` | stream-engine/src/main/java/com/fraudgraph/stream/profile/WelfordAccumulator.java:10-16 | the accumulator holds exactly the count, the mean and the sum of squared deviations from that mean |
| `Welford.OrderDoesNotMatter` | stream-engine/src/main/java/com/fraudgraph/stream/profile/WelfordAccumulator.java:10-16 | the same amounts in any order give the same accumulator |
| `SeenStores.DeleteExpired` | stream-engine/src/main/java/com/fraudgraph/stream/processor/DedupProcessor.java:66-76 | removes exactly the entries recorded before the cutoff |
| `Dedup.DedupProcessor.Process` | stream-engine/src/main/java/com/fraudgraph/stream/processor/DedupProcessor.java:51-64 | forwards a delivery exactly if it has an id that is not stored, and remembers it with its time |
| `Dedup.DedupProcessor.Evict` | stream-engine/src/main/java/com/fraudgraph/stream/processor/DedupProcessor.java:66-76 | the punctuation forwards nothing and leaves the store the specification gives |
| `Dedup.PromptRemembers` | stream-engine/src/main/java/com/fraudgraph/stream/processor/DedupProcessor.java:59-64 | while every redelivery so far was prompt, an id is stored exactly if it was delivered and its first entry is not evicted, under the time of its first delivery |
| `Dedup.FirstsAreEarliest` | stream-engine/src/main/java/com/fraudgraph/stream/processor/DedupProcessor.java:59-64 | the first occurrences are exactly the earliest delivery of each id delivered |
| `Dedup.FirstsAreDistinct` | stream-engine/src/main/java/com/fraudgraph/stream/processor/DedupProcessor.java:59-64 | and no two of them carry the same id |
| `Dedup.ForwardsFirstsIff` | stream-engine/src/main/java/com/fraudgraph/stream/processor/DedupProcessor.java:51-76 | the stage forwards exactly the first occurrences if and only if every redelivery comes before its first entry is evicted |
| `Dedup.FirstIsForwarded` | stream-engine/src/main/java/com/fraudgraph/stream/processor/DedupProcessor.java:59-64 | whatever the timing, an id never delivered before is not held back |
| `CheckProcessors.CheckProcessor.Enrich` | stream-engine/src/main/java/com/fraudgraph/stream/processor/EnrichProcessor.java:40-46 | the merchant category's risk tier, 0 if unknown, and profile and location as they are before the transaction |
| `CheckProcessors.CheckProcessor.Velocity` | stream-engine/src/main/java/com/fraudgraph/stream/processor/CheckProcessor.java:79-86 | three windows written, then read: 1 <= cnt1m <= cnt5m <= cnt1h, each the fold over all transactions processed |
| `CheckProcessors.CheckProcessor.Graph` | stream-engine/src/main/java/com/fraudgraph/stream/processor/CheckProcessor.java:88-91 | a transfer adds its edge and others only read; the view shows the live links and component of the user, the cycle closed and the logged arrival forwarded; in time order view and live links are functions of the transactions processed |
| `CheckProcessors.CheckProcessor.Remember` | stream-engine/src/main/java/com/fraudgraph/stream/processor/CheckProcessor.java:129-133 | the transaction joins the profile, and its place the last location unless that is of a later time |
| `CheckProcessors.CheckProcessor.Check` | stream-engine/src/main/java/com/fraudgraph/stream/processor/CheckProcessor.java:75-136 | the checks see windows and graph with the transaction in them, profile and location without it; then it joins these two; the graph signals are exactly those of the view, and mean, of the links live then and the log, what they mean of the view: a pass-through signal exactly if the depth logged reaches the minimum, a ring signal as above; in time order these are the links of the transfers processed; a transaction that is no transfer raises no ring signal |
| `CheckProcessors.LocationStep` | stream-engine/src/main/java/com/fraudgraph/stream/processor/CheckProcessor.java:131-133 | the stored location stays that of the greatest time, the last processed among equal times |
| `CheckProcessors.LocationIsUnique` | stream-engine/src/main/java/com/fraudgraph/stream/processor/CheckProcessor.java:131-133 | only one location answers to that description |
| `CheckProcessors.ProfileIsExact` | stream-engine/src/main/java/com/fraudgraph/stream/processor/CheckProcessor.java:129-130 | the stored profile is the exact count, mean and sum of squared deviations of the user's processed amounts |
| `CheckProcessors.Pipeline.Process` | stream-engine/src/main/java/com/fraudgraph/stream/processor/CheckProcessor.java:75-136 | while redeliveries are prompt, what the check stage has processed, and so every profile, window, the graph and its signals, comes from the distinct transactions; a record let through gets exactly the graph signals of its view, one kept back none |
| `Decimals.StrippedIsEqual` | analyst-agent/agent/verify.py:126-130 | dropping trailing zeros keeps the number |
| `Decimals.StrippedIsShortest` | analyst-agent/agent/verify.py:126-130 | the places counted are the fewest any way of writing the number has |
| `Decimals.PlacesAre` | analyst-agent/agent/verify.py:126-130 | a number is printed without an exponent exactly if it is zero or at least 0.0001, and below 10^16; then with as few places as any way of writing it has |
| `Payloads.Collector.Walk` | analyst-agent/agent/verify.py:101-123 | adds to the set exactly the numbers of the node |
| `Payloads.FlattenIsReachable` | analyst-agent/agent/verify.py:85-123 | a number is collected exactly if some node of the payload carries it: as a value, in a text, or as the size or distinct count of a list, but never as the size of an object |
| `Payloads.ListCarries` | analyst-agent/agent/verify.py:116-121 | every list carries its size; one of plain items carries the number of distinct ones too, one that holds a list or an object nothing else |
| `Payloads.HashKeyIff` | analyst-agent/agent/verify.py:118-119 | two items count as one exactly if they are equal, texts that read the same, or a truth value and its number |
| `Payloads.KeysAreDistinct` | analyst-agent/agent/verify.py:118-119 | and the number of distinct items is that of items no two of which count as one, with which every item does |
| `Verify.Matches` | analyst-agent/agent/verify.py:133-149 | true exactly if some candidate is close in one of the four ways |
| `Verify.VerifyClaims` | analyst-agent/agent/verify.py:157-200 | the loops compute the specified violations, and none exactly if every finding is supported |
| `Verify.VerifyFinding` | analyst-agent/agent/verify.py:161-199 | one finding: no citation, missing, failed, then each uncited number |
| `Verify.SupportedIff` | analyst-agent/agent/verify.py:161-199 | no violation exactly if the finding cites something, all of it exists and succeeded, and every quantity is near a number some cited payload carries |
| `Verify.FlaggedIff` | analyst-agent/agent/verify.py:157-160 | each finding is judged on its own, and every violation carries its index |
| `Verify.StaysSupported` | analyst-agent/agent/verify.py:186-195 | appending evidence never takes an accepted claim back |
| `Verify.CloseIsNear` | analyst-agent/agent/verify.py:133-149 | an accepted number is within one percent of the larger, or less than one unit, of the number it stands for |
| `Verify.ExemptIff` | analyst-agent/agent/verify.py:57-61 | the only numbers that need no evidence are 0, 1 and 2 |
| `Verify.FabricatedIsCaught` | analyst-agent/agent/verify.py:190-199 | a number other than 0, 1 and 2 that is one unit and one percent away from every number of the cited payloads is caught |
| `Verify.RoundingIsAccepted` | analyst-agent/agent/verify.py:141-145 | rounding to any number of places passes, also if the rounded form ends in zeros |
| `Verify.CuttingIsAccepted` | analyst-agent/agent/verify.py:146-148 | cutting to a whole number passes |
| `Verify.OnePercentIsAccepted` | analyst-agent/agent/verify.py:139-140 | any number no more than one percent off passes, and so the number itself |
| `Verify.NoMoreRoomIff` | analyst-agent/agent/verify.py:141-145 | rounding gives no more room than half a unit in the claim's last place exactly if the claim has no trailing zero after the point, or is printed with an exponent |
| `Verify.NoLessRoomIff` | analyst-agent/agent/verify.py:126-130 | and no less exactly if it is not printed with an exponent |
| `Verify.RoomIsLastPlaceIff` | analyst-agent/agent/verify.py:141-145 | so the room is what the comment says exactly if neither happens; a dropped zero makes it ten times as wide or more |
| `Verify.PercentRoomIff` | analyst-agent/agent/verify.py:190-195 | for a percentage against a ratio: exactly if its last digit is not zero and the ratio is printed without an exponent |
| `Verify.TrailingZeroIsLoose` | analyst-agent/agent/verify.py:144 | 4.0 passes against 3.6, by rounding alone |
| `Verify.TinyPercentIsStrict` | analyst-agent/agent/verify.py:194 | 0.005% does not pass against a ratio of 0.000053, half of its last place notwithstanding |
| `Verify.RoundPercentIsLoose` | analyst-agent/agent/verify.py:194 | 50% passes against a ratio of 0.46, 51% does not against 0.47 |
| `Publication.PublishedStillSupports` | analyst-agent/agent/graph.py:218-225 | what a reader reconstructs from the published evidence supports every finding the collected evidence supports, also where an error message was empty |
| `Investigation.EveryRunEnds` | analyst-agent/agent/graph.py:69-121 | for any replies and failures a run ends within 2 + max(0, T-1) + 4 max(1, attempts) visits, runs at most T tools and drafts at most once per attempt |
| `Investigation.StepWithinBudget` | analyst-agent/agent/graph.py:116-121 | each visit lowers the measure: attempts left, then tool budget left, then the node |
| `Investigation.BoundIsReached` | analyst-agent/agent/graph.py:69-121 | the bound is exact: some model takes all of it |
| `Investigation.LimitHoldsIff` | analyst-agent/agent/server.py:92 | so a recursion limit is never exceeded exactly if it is at least the bound |
| `Investigation.EvidenceOnlyGrows` | analyst-agent/agent/models.py:69-78 | the evidence at any moment is a prefix of the evidence at any later one |
| `Investigation.AcceptedStaysAccepted` | analyst-agent/agent/models.py:24-28 | so a claim accepted once stays accepted to the end of the run |
| `Investigation.RepliesAreRight` | analyst-agent/agent/graph.py:91-107 | each tool result is told to the model under its own position in the evidence |
| `Investigation.ToldIsPublished` | analyst-agent/agent/graph.py:101-107 | and that is the entry published under that index |
| `Investigation.FinalReportIs` | analyst-agent/agent/graph.py:195-216 | the report is the draft if all of it is supported; else UNCERTAIN, confidence 0, ESCALATE, with exactly the supported findings in order |
| `Investigation.AttachedIsSupported` | analyst-agent/agent/graph.py:195-241 | on every run each finding of the attached report is supported by the evidence attached with it |
| `Investigation.DistinctIs` | analyst-agent/agent/graph.py:226-231 | the history holds every violation of every attempt, once |
| `Investigation.RunTools` | analyst-agent/agent/graph.py:89-107 | the loop answers each call: its tool's payload and error as returned, or an entry that failed; and tells the model each under its index, the error if it has a message and the payload otherwise |
| `Investigation.StepGathersAnswers` | analyst-agent/agent/graph.py:86-113 | every step of every run adds just that: the lookup as it came back, or the answers of as many requested tools as the budget allows, each told to the model |
| `Investigation.FailedIsNotAttached` | analyst-agent/agent/verify.py:175-180 | a finding that cites the result of a tool that failed at whatever step is never attached |
| `Investigation.DraftIsJudged` | analyst-agent/agent/graph.py:186-191 | a draft all of whose findings are supported is attached as it is, two steps on; any other is investigated again while attempts are left and escalated after the last |
| `Investigation.EscalatedIsSpent` | analyst-agent/agent/graph.py:186-191 | a run is escalated only after all its attempts, and attaches its counts of attempts and tool calls |
| `Investigation.VerifyNode` | analyst-agent/agent/graph.py:174-184 | no violation exactly if there is a draft and all of it is supported by all the evidence there is |
| `Investigation.Execute` | analyst-agent/agent/graph.py:243-261 | running the nodes on any answers gives the run of the theorems: the evidence is what tools and lookups returned, step by step; with enough answers it ends with a report attached, an escalation only after the last attempt; each finding of it is supported by the attached evidence and cites no result of a tool that failed |
| `Investigation.FinalizeNode` | analyst-agent/agent/graph.py:195-238 | the loop over all violations and the attached document |
| `Ask.ShownOrRemoved` | analyst-agent/agent/ask.py:291-304 | every sentence of a draft is shown and supported, or removed |
| `Ask.Check` | analyst-agent/agent/ask.py:291-304 | the split, with the first violation against each removed sentence as its reason |
| `Ask.Conversation.Fetch` | analyst-agent/agent/ask.py:238-248 | at most the budget of tools, never one whose result is there without an error; the names are run in order, each left out only for such a result or because the budget was spent; evidence grows by what the tools returned and nothing else |
| `Ask.Conversation.FirstDraft` | analyst-agent/agent/ask.py:250-254 | the routed tools are run for the first draft; a second draft exactly if the first asked for evidence and said nothing, and then the tools it asked for are run for it |
| `Ask.ObtainsServes` | analyst-agent/agent/ask.py:238-254 | so every name asked for has a result, new or without an error, unless the budget is spent, and no tool is run that was not named |
| `Ask.Conversation.Respond` | analyst-agent/agent/ask.py:250-288 | routed and asked-for tools are run first; one rewrite exactly if nothing could be shown and the provider answered, so at most three drafts; the answer is exactly the supported part of the last draft, supported by the evidence as published; every other sentence of that draft is listed as removed |
| `Ask.Merge` | analyst-agent/agent/ask.py:261-263 | the list goes on with the sentences removed from the rewrite, in order, whose text was not listed before |
| `Ask.AskCase` | analyst-agent/agent/ask.py:203-210 | a case that cannot be loaded is an error told apart by its message, everything else an answer; every routed tool is served at the first draft and at the end, every tool that draft asked for at the second, and every entry added is of one of these and as the tool returned it |
| `AnswerCaches.RecencyIsStrict` | analyst-agent/agent/ask.py:312-350 | of two keys that were touched exactly one is the more recent |
| `AnswerCaches.TouchKeepsRecency` | analyst-agent/agent/ask.py:340 | moving a touched key to the end keeps the order of items the order of last touch |
| `AnswerCaches.FirstIsStale` | analyst-agent/agent/ask.py:349-350 | when there are too many items, `size` different other keys were touched since the first one was |
| `AnswerCaches.AnswerCache.Get` | analyst-agent/agent/ask.py:330-341 | a hit is the last non-empty answer put under the key and no older than the ttl; a miss on a key ever put means too old or `size` other keys touched since |
| `AnswerCaches.AnswerCache.Put` | analyst-agent/agent/ask.py:343-350 | stores a non-empty answer as the most recent; never more than `size` items afterwards |
| `AnswerCaches.AnswerCache.MakeRoom` | analyst-agent/agent/ask.py:349-350 | takes items out by recency until they fit, the one just put last |
| `RateLimit.Window.Prune` | analyst-agent/agent/ratelimit.py:26-27 | drops exactly the hits that are no longer in the window |
| `RateLimit.Window.Wait` | analyst-agent/agent/ratelimit.py:22-30 | 0 exactly if a call is allowed now; else a wait after which it is, and at no time until a second before its end |
| `RateLimit.Window.Record` | analyst-agent/agent/ratelimit.py:32-34 | books an allowed call; a window without limit books nothing |
| `RateLimit.IntervalHoldsLimit` | analyst-agent/agent/ratelimit.py:22-34 | every half-open interval of the window's length holds at most `limit` accepted calls |
| `RateLimit.CountInIs` | analyst-agent/agent/ratelimit.py:27-32 | the count in an interval is the number of accepted calls whose time is in it |
| `RateLimit.LongestWait` | analyst-agent/agent/ratelimit.py:54-57 | the longest of the four waits is a wait for all four together, with the same slack of a second |
| `RateLimit.RateLimiter.AddClient` | analyst-agent/agent/ratelimit.py:42-43 | a client seen first gets two fresh windows, and no other window changes |
| `RateLimit.RateLimiter.WaitFor` | analyst-agent/agent/ratelimit.py:53-58 | asking records nothing |
| `RateLimit.RateLimiter.Book` | analyst-agent/agent/ratelimit.py:59-60 | an accepted call is recorded in all four windows, and only there |
| `RateLimit.RateLimiter.Check` | analyst-agent/agent/ratelimit.py:51-61 | accepted exactly if all four windows allow it, counting the client's own calls; after the wait, with none accepted in between, a retry is accepted; only blank clients share one entry |
| `RateLimit.RateLimiter.ClientWithinLimits` | analyst-agent/agent/ratelimit.py:37-61 | no minute and no day holds more accepted calls of a client than its limits |
| `RateLimit.RateLimiter.AllWithinLimits` | analyst-agent/agent/ratelimit.py:37-61 | nor more than the global limits over all clients |
| `Runner.ShiftedWaits` | generator/generator/runner.py:165-176 | a clock jump moves every queued event, its transaction and its label by the same time |
| `Runner.GapsAreKept` | generator/generator/runner.py:165-176 | between two published events lie the gap they were drawn with and the clock jumps in between, nothing else |
| `Runner.PublishQueued` | generator/generator/runner.py:135-142 | taking out an earliest event keeps the account of events, whether it is published or put back |
| `Runner.SpawnShifted` | generator/generator/runner.py:120-131 | the same draws spawned after a skip give the same episodes and next due times, moved by the skip |
| `Runner.SkipClearsIff` | generator/generator/runner.py:120-125 | at or after a skip, something queued is stale exactly if some queued event was due more than five seconds before the same time after the next base arrival |
| `Runner.SkipAndSpawnClearsIff` | generator/generator/runner.py:120-131 | the same of the queue with the episodes spawned after the skip in it |
| `Runner.SpawnCanJam` | generator/generator/runner.py:120-131 | an empty queue, an episode due nine seconds before the next arrival and a host asleep until six seconds after the arrival: spawning it after the skip jams the loop |
| `Runner.SkipStaysJammed` | generator/generator/runner.py:165-176 | an event that far behind both the clock and the next arrival stays so over a skip, which moves event and arrival alike |
| `Runner.StaleBeforeArrivalJams` | generator/generator/runner.py:135-144 | a stale event is in that state whenever the clock has not passed the next arrival; afterwards exactly if it is due five seconds before it |
| `Runner.SleepCanJam` | generator/generator/runner.py:135-144 | an event due nine seconds before the next arrival and a host asleep until six seconds after the event |
| `Runner.Runner.SkipAhead` | generator/generator/runner.py:165-176 | queue, next arrival and next episodes move together |
| `Runner.Runner.ScheduleEpisode` | generator/generator/runner.py:91-94 | the queue grows by exactly the events of the episode, each with its id and label at its offset from the start, the times in transaction and label included |
| `Runner.Runner.SpawnDue` | generator/generator/runner.py:127-131 | afterwards no episode is due by the next base arrival; the queue grew by the events of each episode drawn, from when its injector was due, and that injector's next episode follows after the drawn gap |
| `Runner.Runner.PublishEvent` | generator/generator/runner.py:135-142 | publishes an earliest queued event, which keeps time order |
| `Runner.Runner.PublishDue` | generator/generator/runner.py:133-144 | publishes in time order, nothing more than five seconds behind the clock; unless it resyncs nothing due is left; it resyncs only on an event that was queued and stale |
| `Runner.Runner.CatchUp` | generator/generator/runner.py:119-131 | skips by exactly what the schedule is behind if that is more than five seconds; the queue is then the old one and the events of the episodes drawn, all moved by the skip; something in it is stale exactly if, before the skip, some of these was due more than five seconds before the next arrival |
| `Runner.Runner.PublishBase` | generator/generator/runner.py:146-151 | the base arrival comes after all that was published and before all that is queued; the next follows after its gap |
| `Runner.Runner.NextBase` | generator/generator/runner.py:146-151 | publishes the next drawn base arrival at the time it was due, and the one after follows its gap, unless the clock is five seconds past it or none is left |
| `Runner.Runner.Turn` | generator/generator/runner.py:114-156 | at or after the deadline, or with the limit reached, a turn does nothing and ends the loop; otherwise it uses at most one base arrival, published last and at its time, and moves the next by its gap; a turn that publishes nothing found the schedule too far behind the clock; while a queued event is stale and the next arrival is not, nothing is published; a turn that skips jams the loop if an event queued or spawned in it was due more than five seconds before the next arrival, and otherwise publishes something, unless it ends the loop for one of the stated reasons or its sleeps are so late that an event becomes stale; a loop that is jammed once the episodes spawned in the turn are counted in stays so and publishes nothing |
| `Runner.Runner.Run` | generator/generator/runner.py:101-160 | over any run timestamps do not decrease, everything scheduled is published or queued once, and the event limit holds; base arrivals are published in order and follow each other by the gaps drawn and the clock jumps; only the last of them can come at or after the deadline, and a run that starts then does nothing; a jammed loop stays jammed and publishes nothing, for any number of turns |
| `FeedBroadcaster.InTimeOrderIs` | case-service/src/main/java/com/fraudgraph/cases/feed/FeedBroadcaster.java:137-138 | a frame is a permutation of the queue with times that do not go down, ticks without a time last, and ticks of one time in their order |
| `FeedBroadcaster.OthersBetween` | case-service/src/main/java/com/fraudgraph/cases/feed/FeedBroadcaster.java:52-58 | between two times an id is let in lie 20,000 different other ids |
| `FeedBroadcaster.FeedBroadcaster.Remember` | case-service/src/main/java/com/fraudgraph/cases/feed/FeedBroadcaster.java:95-102 | a tick is fresh exactly if its id is not among the last 20,000 let in; the history is the last maxHistory fresh ticks |
| `FeedBroadcaster.FeedBroadcaster.MakeRoom` | case-service/src/main/java/com/fraudgraph/cases/feed/FeedBroadcaster.java:113-123 | frees a place exactly if the head is an ALLOW tick or there is no head |
| `FeedBroadcaster.FeedBroadcaster.Publish` | case-service/src/main/java/com/fraudgraph/cases/feed/FeedBroadcaster.java:94-110 | refused exactly if the queue is full with a flagged head; otherwise queued, with the head gone if it was full; the count is the length and at most max(1, maxQueued); every tick is in one place |
| `FeedBroadcaster.FeedBroadcaster.Flush` | case-service/src/main/java/com/fraudgraph/cases/feed/FeedBroadcaster.java:126-144 | the whole queue leaves as one frame in order of time, and only here does a flagged tick leave it |
| `FeedBroadcaster.FeedBroadcaster.Register` | case-service/src/main/java/com/fraudgraph/cases/feed/FeedBroadcaster.java:75-84 | a new session is shown the history |
| `FeedBroadcaster.RefusedBehindFlagged` | case-service/src/main/java/com/fraudgraph/cases/feed/FeedBroadcaster.java:113-116 | a flagged tick is refused although an ALLOW tick is queued |

## Left out

- Ids are integers in the stream engine's modules, and of any type with equality in the others; the source uses strings.
- `long` times and counters are unbounded integers, and amounts and statistics are reals: overflow and floating-point
  rounding are not modelled, nor rounding for display. The ratio kept with a pass-through is rounded as in the source;
  the test for a match uses the unrounded one, as there.
- Threads: each public operation is one atomic step, and the stages process one record at a time for one task.
- Kafka state stores are maps; the retention of the window stores, changelogs and restarts are not modelled.
- CheckProcessors.CheckProcessor.Check: the checks other than the graph check, the isolation of checks from each other's
  exceptions, the z-score (a square root), travel speed (trigonometry) and the remaining fields of the feature vector
  are left out.
- Other checks, rules, thresholds, scoring, explanations and the case life cycle: small decision tables or foreign
  libraries.
- Extracting quantities from text: a claim is the list of its quantities, and a text in a payload comes with its numbers.
  Non-finite numbers and the shortest printed form of binary fractions are left out; a quantity is an exact decimal.
- Verify.VerifyClaims: the wording of a violation is replaced by what it is about.
- Prompts, message texts, notes, step timings, tool arguments and JSON parsing in the agent; a draft comes parsed, and
  two violations are the same if they are about the same thing, not if they read the same.
- Investigation.RepliesAreRight: the text a tool result is told in is cut to a configured length; the model tells it whole.
- Investigation.ToldIsPublished: so what was told of an entry can be a leading part of what is published under its index.
- Ask.AskCase: shaping the case and the earlier report into the initial evidence, and routing a question to tools, are
  inputs; there are enough answers in the world for all calls a question can make.
- The key of the answer cache (a hash), and its lock.
- RateLimit.RateLimiter.Check: the clock does not go back.
- Runner.Runner.Run: the draws of gaps and episodes are a finite supply, and a run stops where it ends; the heap may
  yield any earliest event, the model yields the first. Statistics per pattern and log output are left out.
- FeedBroadcaster.FeedBroadcaster.Flush: sorting is given as insertion, which is stable like the library's; sending is
  a set of sessions that fail; a tick is its id, its time and whether its verdict opens a case.
- The dashboard, the showcase, the other injectors, HTTP, gRPC, Redis, Postgres and Chroma.
