# Prequal load balancer: model and proofs

The balancer keeps a small pool of probe results, a sliding window of the requests in flight (RIF)
that probes reported, and a few rings and counters. A query is sent to the best pooled replica in the
hot-cold lexicographic order; pooled results are used a bounded number of times, expire, and are
removed at a fractional rate.

The operations that change fields in the Go code are methods of classes here, proved against machines
on values; the theorems are about all runs of those machines.

| file | what it holds |
|---|---|
| `Basics.dfy`, `OrderStatistics.dfy`, `Subsequences.dfy` | truncation, shares, sorting and order statistics, order-preserving parts of lists |
| `RifWindow.dfy` | the RIF window as a machine (observe, evict, answer, cache) and its runs |
| `RifDistribution.dfy` | the window as the code has it: buffer, histogram, compaction, cumulative walk |
| `HotCold.dfy` | the preorder, the selection scan and the removal scan |
| `Removal.dfy` | worst and oldest removal, the removal debt |
| `ProbePool.dfy` | the pool as a machine with a ledger of all insertions and picks |
| `PoolSteps.dfy` | what each event does to the pool, entry by entry, and that every step of every run does that |
| `PoolTime.dfy`, `SelectionRule.dfy`, `ReuseBudgets.dfy` | time order and expiry, the rule as a whole, what budgets amount to |
| `PoolSlices.dfy`, `LoadBalancer.dfy` | the pool as slices of pointers to mutable entries, and the balancer object |
| `Interleaving.dfy`, `HandoutBound.dfy`, `OverlapReached.dfy`, `OverlapChoice.dfy`, `RifOverlap.dfy`, `RifMissed.dfy` | overlapping callers in single atomic steps under one writer lock: how often entries are handed out, which are chosen, and what their RIFs are worth |
| `WindowInterleaving.dfy` | overlapping queries of the RIF window: cache load, locked computation and cache store as steps of their own |
| `Rings.dfy`, `RoundRobin.dfy`, `ProbeRate.dfy` | the ring of recent picks, a backend's latency ring, the 32-bit counter, the adaptive probe rate |

Instants are integers in nanoseconds and parameters of the operations. Parameters that are `float64` in
the code are `real`. Random draws are parameters with any value. Servers and entries are named by
numbers; an entry's number stands for its pointer.

## Promises that hold only in part

- `report/report.md` line 55 promises a reuse limit: no pooled entry is used more than its limit
  allows. With queries that overlap this does not hold. A query that took its snapshot before an
  exhausted entry was removed can still choose that entry. `HandoutBound.HandedOutAtMost` gives the
  limit that does hold (budget + T - 1 for at most T overlapping queries),
  `OverlapReached.BoundIsReached` shows it is reached for every budget and every T, and
  `OverlapReached.ReuseLimitKeptIff` says exactly when the promise is kept: for T <= 1, or a pool with
  room for one entry only.
- The RIF of a pooled entry is its probed RIF plus the picks of its server since it was published, when
  operations run one at a time (`ProbePool.RifLedger`). As soon as a probe result can be inserted while
  a query runs, this fails, even if queries never overlap each other. A query that has bumped its list
  when an entry of the same server is published, and decrements after, is a pick that the entry never
  counts. `RifMissed.RifLedgerKeptIff` says exactly when the sum is right whenever no query is in
  progress: with no queries at all, or a pool with room for one entry only. For a single entry it is
  short by exactly the queries that were handing out an entry of its server when it was published
  (`RifOverlap.RifWithinOverlap`). With at most T overlapping queries it is never more than T off, and
  both ends are reached (`RifMissed.RifMissesOverlap`, `RifMissed.RifAheadByOverlap`).
- Insertion prunes entries received at the cutoff or before; selection skips only those received
  strictly before it. `PoolTime.PruneVisibleIff` says exactly when the difference shows, and
  `PoolTime.EntriesAtCutoff` gives a pool where it does.
- An answer comes from the whole history filtered by age only while nothing is lost: no stale sample
  stands behind a fresh one among those held, and no sample dropped before would be fresh at this
  query. `RifWindow.WindowIsHistoryIff` shows the condition exact for every query after every run, and
  `RifWindow.OrderedLosesNothing` that ordered times meet it. The code guarantees neither half. Probe
  results are handled concurrently, so a sample can be stored late
  (`RifWindow.LateSampleChangesAnswer`). A query reads its instant (`pkg/loadbalancer/balancer.go` line
  399) before it takes the window's lock (`pkg/loadbalancer/rif_distribution.go` line 61), so of two
  overlapping queries that miss the cache the later instant can evict first
  (`WindowInterleaving.OvertakenMissLosesSamples`). `WindowInterleaving.ComputesFromHistoryIff` shows
  the condition exact in every interleaving too. What holds without it is `RifWindow.RunHoldsSuffix` and
  `WindowInterleaving.ToldHasRecentOrigin`.
- Round robin is even over every window of picks only when the number of servers divides 2^32
  (`RoundRobin.AlwaysEvenIff`).

## Model

| member | source | states |
|---|---|---|
| HandoutBound.HandedOutAtMost | pkg/loadbalancer/balancer.go:396-491 | over every interleaving with at most T overlapping queries, an entry inserted with b uses is handed out at most b + T - 1 times, so at most b times when T is 1 |
| HandoutBound.PicksAtMost | pkg/loadbalancer/balancer.go:396-491 | over every interleaving all picks together are the handouts of the entries ever appended, and no more than budget + T - 1 for each |
| OverlapReached.BoundIsReached | pkg/loadbalancer/balancer.go:396-491 | for every b, T and capacity of at least 2, a run of a balancer with one configuration and at most T overlapping queries that hands an entry out exactly b + T - 1 times |
| OverlapReached.ReuseLimitKeptIff | pkg/loadbalancer/balancer.go:470-491 | every run keeps every entry within its budget if and only if queries never overlap or the pool has room for one entry only |
| OverlapChoice.PicksFirstBest | pkg/loadbalancer/balancer.go:411-476 | over every interleaving, every pick is the first best of the entries of its query's list as the query read them, with at least two of them fresh, and it is that entry that loses a use |
| OverlapChoice.ChoosesFirstBest | pkg/loadbalancer/balancer.go:411-458 | over every interleaving, a query that makes its choice has read its whole list, goes on with the first best of what it read, and ends without a pick if and only if fewer than two of those were fresh |
| Interleaving.StepsInOrder | pkg/loadbalancer/balancer.go:396-491 | every step takes its call to the next stage and skips none: removals, list, scan, choice, bumps, decrement, discard |
| Interleaving.NextMeaning | pkg/loadbalancer/balancer.go:276-284 | what a writer publishes is exactly what is not gone, in order, and the new entry; at the capacity all of that but the first |
| HandoutBound.ExhaustedIsBeingRemoved | pkg/loadbalancer/balancer.go:476-490 | a published entry without a use left has a call between its decrement and its removal; with no query in progress every published entry has a use left |
| HandoutBound.RunsAreSerial | pkg/loadbalancer/balancer.go:251-270 | no writer loses another's change: the published list is every published change done in order, a duplicate-free subsequence of all appended entries, within the capacity |
| HandoutBound.RemovedForGood | pkg/loadbalancer/balancer.go:479-490 | an entry that left the published list is in no later one |
| HandoutBound.NobodyStuck | pkg/loadbalancer/balancer.go:526-527 | every call in progress has a possible next step, or waits for a lock holder that has one |
| HandoutBound.RunInv | pkg/loadbalancer/balancer.go:229-491 | mutual exclusion, the serial history and the coverage of every entry's uses by the calls that may still spend or retire it, after every interleaving |
| RifOverlap.OverlappedRifLedger | pkg/loadbalancer/balancer.go:470-476 | over every interleaving with at most T overlapping queries, a published entry's RIF is exactly its probed RIF, plus the picks of its server since its publication whose query held it, plus the queries that have bumped it and are not picks yet; the picks that missed it and the queries that still will are exactly those handing out an entry of its server when it was published, T at most |
| RifOverlap.RifWithinOverlap | pkg/loadbalancer/balancer.go:470-476 | so it is within T of the probed RIF plus all picks of its server since its publication, and once no query is in progress it is short of that by exactly the queries that were handing out an entry of its server when it was published |
| RifOverlap.RunRif | pkg/loadbalancer/balancer.go:470-491 | the invariant behind it, for every entry after every interleaving |
| RifMissed.RifLedgerKeptIff | pkg/loadbalancer/balancer.go:470-476 | in all runs with at most T overlapping queries, the RIF of every published entry is its probed RIF plus the picks of its server since its publication whenever no query is in progress, if and only if T is 0 or the pool has room for one entry only |
| RifMissed.RifMissesOverlap | pkg/loadbalancer/balancer.go:470-476 | for every budget, T and capacity of at least 2, a run that ends at rest with a published entry that T picks of its server have missed |
| RifMissed.RifAheadByOverlap | pkg/loadbalancer/balancer.go:470-476 | for the same, a run with a published entry whose RIF is T above its ledger |
| RifMissed.LedgerExactWithoutPicks | pkg/loadbalancer/balancer.go:411-452 | without queries or with room for one entry the ledger is exact at any time |
| Interleaving.ExclusiveStep | pkg/loadbalancer/balancer.go:251-270 | every atomic step keeps the lock exclusive: only its holder is past the acquisition, and what it loaded is what is published |
| Interleaving.SerialStep | pkg/loadbalancer/balancer.go:251-284 | every atomic step keeps the serial history, the order of insertion and the capacity |
| ProbePool.EveryRunBalances | pkg/loadbalancer/balancer.go:229-307 | after every run of probes and queries the ledger balances, the pool is within its capacity, and all pool picks together are at most max(1, MaxReusePool) times the successful probes |
| ProbePool.RifLedger | pkg/loadbalancer/balancer.go:470-475 | a pooled entry's RIF is its probed RIF plus the pool picks of its server since its insertion; fallback picks add nothing |
| ProbePool.UseLedger | pkg/loadbalancer/balancer.go:476-478 | a pooled entry's uses and the picks of it add up to its budget, the budget is between 1 and max(1, MaxReusePool), and at least one use is left |
| ProbePool.NeverOverspent | pkg/loadbalancer/balancer.go:470-491 | without overlap no entry, pooled or gone, is picked more often than its budget |
| PoolSteps.RunsHappen | pkg/loadbalancer/balancer.go:229-491 | every step of every run is, entry by entry, what its event does: a probe result is inserted behind exactly what has not expired; a query takes down what is due, then hands out the first best fresh entry or, with fewer than two, nothing |
| PoolSteps.RunOwes | pkg/loadbalancer/balancer.go:522-551 | after a run with k queries the debt is the fraction of k RRemove whatever was pooled, and the turn has changed with every entry taken down |
| PoolSteps.RunsStart | pkg/loadbalancer/balancer.go:81-107 | a run starts with an empty pool, no debt, and the worst to go first |
| PoolSteps.SelectAsks | pkg/loadbalancer/balancer.go:396-474 | a query takes exactly the removals due and then serves from what they leave |
| PoolSteps.TakeServes | pkg/loadbalancer/balancer.go:440-474 | with fewer than two fresh entries the pool stays as it is; otherwise the first best is logged and handed out |
| PoolSteps.ConsumeHandsOut | pkg/loadbalancer/balancer.go:470-491 | handing out an entry adds one RIF to exactly the entries of its server, takes a use of it alone, and removes it alone when that was the last |
| PoolSteps.ShrinkRemovesDue | pkg/loadbalancer/balancer.go:522-551 | a query's removals: min(floor(debt + RRemove), size) entries go one at a time, worst and oldest in turn, each worst one the first maximum at the pool's quantile at that moment; the fraction stays owed; without a removal rate nothing changes |
| PoolSteps.ShedTakesDown | pkg/loadbalancer/balancer.go:541-550 | the removal loop is that sequence of rounds |
| PoolSteps.InsertProbeInserts | pkg/loadbalancer/balancer.go:244-266 | the new entry carries what was reported and stands last, everything unexpired stays below the capacity, and at the capacity all but the first |
| PoolSteps.CutoffMeaning | pkg/loadbalancer/balancer.go:253-257 | with a lifetime insertion keeps what is younger and selection uses what is as old as well; without one neither drops anything |
| ProbePool.ReuseBudget | pkg/loadbalancer/balancer.go:286-307 | the budget lies between 1 and max(1, MaxReusePool) in spite of rounding up |
| ProbePool.Decide | pkg/loadbalancer/balancer.go:411-458 | a chosen entry is the first minimum of the hot-cold preorder over the fresh entries; there is none exactly when fewer than two are fresh |
| ProbePool.InsertBalanced | pkg/loadbalancer/balancer.go:244-266 | inserting with prune and capacity drop keeps the whole ledger |
| ProbePool.TakeBalanced | pkg/loadbalancer/balancer.go:440-474 | a pool pick and a fallback keep the whole ledger |
| ProbePool.WithoutIsDelete | pkg/loadbalancer/balancer.go:479-490 | dropping the used entry by identity removes exactly its position and keeps the order of the rest |
| ProbePool.ConsumeUsedMeaning | pkg/loadbalancer/balancer.go:470-491 | consuming an entry still pooled is consuming it at its position; consuming one that has left only bumps its server's entries |
| ProbePool.PruneSub | pkg/loadbalancer/balancer.go:253-262 | pruning keeps a subsequence, all of it received after the cutoff, and every entry received after the cutoff is in it |
| ReuseBudgets.WantedUsesBalanceRates | pkg/loadbalancer/balancer.go:290-298 | strictly between 1 and the limit, uses times net probe rate is 1 + delta; without a net rate it is the limit |
| ReuseBudgets.WantedUsesExactly | pkg/loadbalancer/balancer.go:290-298 | the wanted uses for all rates: 1, the limit, or what makes uses times net probe rate 1 + delta, and exactly when each |
| ReuseBudgets.BudgetWithoutServers | pkg/loadbalancer/balancer.go:287-289 | without servers the budget is 1 |
| ReuseBudgets.BudgetRounds | pkg/loadbalancer/balancer.go:299-306 | the budget is the floor or ceiling of the wanted uses, chosen as the number of probes is |
| ReuseBudgets.BudgetAverage | pkg/loadbalancer/balancer.go:299-302 | over N equally spaced draws with N times the wanted uses whole, the budgets add up to exactly that |
| HotCold.ScanFindsFirstBest | pkg/loadbalancer/balancer.go:417-457 | the one-pass scan ends on an entry if and only if it is the first minimum of the preorder over the fresh entries, on nothing if and only if none is fresh, and counts the fresh ones |
| HotCold.WinnerMeaning | pkg/loadbalancer/balancer.go:454-458 | a hot winner means all fresh entries are hot; threshold -1 means least RIF; a threshold no RIF exceeds means least latency |
| HotCold.WinnerIsColdFirst | pkg/loadbalancer/balancer.go:427-458 | the winner is the first fresh entry of least latency among those whose RIF is at most the threshold, and of least RIF when there are none |
| HotCold.FreshCountIsSize | pkg/loadbalancer/balancer.go:425 | the fresh count is the number of positions that hold a fresh entry |
| SelectionRule.ExtremeQuantiles | pkg/loadbalancer/rif_distribution.go:51-70 | over any run of the window, a query with an invalid quantile goes to the first fresh entry of least RIF if no RIF is negative, and with q >= 1 any other goes to the first of least latency |
| HotCold.ScanFindsFirstWorst | pkg/loadbalancer/balancer.go:579-603 | the removal scan ends on a position if and only if it is the first maximum of the same preorder, and ends on nothing only for an empty pool |
| HotCold.VictimMeaning | pkg/loadbalancer/balancer.go:579-599 | the victim is the earliest of maximal RIF if any RIF exceeds the threshold, else the earliest of maximal latency |
| Removal.RemoveWorstDeletesFirstWorst | pkg/loadbalancer/balancer.go:560-607 | exactly one entry goes, the rest keep their order, and it is the first maximum at the pool's own threshold |
| Removal.ThresholdShare | pkg/loadbalancer/balancer.go:564-577 | the threshold is the order statistic of the pool's RIFs at floor((n-1)q) for q in [0, 1], the least below and the greatest above that range: at most that many RIFs below it, more than that many at most it |
| Removal.CallsConserveDebt | pkg/loadbalancer/balancer.go:529-534 | over k calls the demands add up to exactly floor(k RRemove) and the debt is the fraction left, whatever the pools were |
| Removal.CallShrinksBy | pkg/loadbalancer/balancer.go:536-550 | each call takes exactly min(demand, size) entries off |
| Removal.CallsAlternate | pkg/loadbalancer/balancer.go:543-548 | the removals of a run strictly alternate between worst and oldest, within calls and across them |
| Removal.RemovalsBalance | pkg/loadbalancer/balancer.go:543-548 | the numbers of worst and oldest removals of a run differ by 0 or 1 |
| PoolTime.RunOrdered | pkg/loadbalancer/balancer.go:553-558 | when results are handled in timestamp order the pool stays in that order, and its first entry is a true oldest |
| PoolTime.RoundsTakeOldest | pkg/loadbalancer/balancer.go:543-548 | on a pool in timestamp order every oldest-first round of the removal loop takes exactly the first entry left, received no later than all that stay, whatever the worst-first rounds between took |
| PoolTime.OldestRemovalsTakeOldest | pkg/loadbalancer/balancer.go:522-558 | in timestamp order that holds for every oldest-first round of the removal after any run |
| PoolTime.OverflowDropsOldest | pkg/loadbalancer/balancer.go:276-284 | in timestamp order, an insertion at capacity drops the first pruned entry, keeps the others and the new one, and what it drops was received no later than all it keeps |
| PoolTime.PruneVisibleIff | pkg/loadbalancer/balancer.go:253-262 | pruning at t1 changes the scan of a selection at t2 >= t1 if and only if t1 = t2 and an entry stands exactly at the cutoff |
| PoolTime.EntriesAtCutoff | pkg/loadbalancer/balancer.go:422-424 | with two entries exactly at the cutoff, selection chooses one of them, and after pruning at the same instant it finds no pool |
| PoolTime.SameScanSameDecision | pkg/loadbalancer/balancer.go:411-438 | scans that agree make the same decision on the same entry |
| RifWindow.WindowRefinesHistory | pkg/loadbalancer/rif_distribution.go:44-116 | with ordered times, every answer of every run is the sorted order statistic of the whole history filtered by age, as of a query for the same q less than 100 ms earlier |
| RifWindow.AnswerHasRecentOrigin | pkg/loadbalancer/rif_distribution.go:51-58 | every answer was computed for the same q by a call of the run less than 100 ms earlier; a hit never renews the age |
| RifWindow.MissAnswersNaively | pkg/loadbalancer/rif_distribution.go:60-90 | with ordered times, a query that misses the cache answers as filtering, sorting and indexing the history does |
| RifWindow.WindowIsHistoryIff | pkg/loadbalancer/rif_distribution.go:92-116 | after any run, evicting from the samples held is filtering the whole history by age if and only if no stale sample held stands behind a fresh one and no sample dropped would be fresh |
| RifWindow.MissAnswersFromHistory | pkg/loadbalancer/rif_distribution.go:60-90 | under that condition a query that misses the cache answers from the whole history |
| RifWindow.OrderedLosesNothing | pkg/loadbalancer/rif_distribution.go:44-49 | ordered times meet the condition at every query |
| RifWindow.LateSampleChangesAnswer | pkg/loadbalancer/rif_distribution.go:94-101 | a run with one sample out of order whose answer is valid where the filtered history has too few samples |
| RifWindow.LateQueryChangesAnswer | pkg/loadbalancer/rif_distribution.go:60-63 | a run with queries out of order, for different quantiles, whose answer is invalid where the filtered history has enough samples |
| RifWindow.SuffixIsHistoryIff | pkg/loadbalancer/rif_distribution.go:92-101 | evicting from a suffix of a history is filtering the history if and only if no stale sample of the suffix stands behind a fresh one and nothing before the suffix is fresh |
| WindowInterleaving.ToldRefinesHistory | pkg/loadbalancer/rif_distribution.go:51-90 | in every interleaving of loads, computations, stores and observations in which samples are stored and computations made in the order of their instants, every answer is the sorted order statistic of the whole history filtered by age, as of a computation for the same q less than 100 ms earlier |
| WindowInterleaving.ToldHasRecentOrigin | pkg/loadbalancer/rif_distribution.go:51-58 | in every interleaving every answer was computed for the same q at an instant less than 100 ms before the query's own, whatever order results are stored in |
| WindowInterleaving.LoadTells | pkg/loadbalancer/rif_distribution.go:52-54 | a load is told the cached answer when it is for its q and less than 100 ms old, and computes otherwise |
| WindowInterleaving.StoredIsTold | pkg/loadbalancer/rif_distribution.go:55-57 | what was computed is told to its query and, after the store, to the next load for that q |
| WindowInterleaving.ComputesFromHistoryIff | pkg/loadbalancer/rif_distribution.go:60-63 | after every interleaving a computation keeps the whole history filtered by age if and only if nothing is lost |
| WindowInterleaving.RunHoldsSuffix | pkg/loadbalancer/rif_distribution.go:92-116 | after every interleaving the samples held are a suffix of the history, and all that was dropped had aged out for some computation |
| WindowInterleaving.OvertakenMissLosesSamples | pkg/loadbalancer/rif_distribution.go:51-63 | two queries for the same q miss, the later instant computes first, and the other is told an invalid answer where the filtered history has enough samples |
| RifWindow.RunHoldsSuffix | pkg/loadbalancer/rif_distribution.go:92-116 | with no assumption on times, the samples held are a suffix of the history, and all that was dropped had aged out for some query |
| RifWindow.EvictDropsLongestStalePrefix | pkg/loadbalancer/rif_distribution.go:92-101 | eviction leaves exactly what follows the longest stale prefix |
| RifWindow.EvictIsFilterIff | pkg/loadbalancer/rif_distribution.go:92-101 | eviction is the filter by time if and only if no stale sample stands behind a fresh one |
| RifWindow.QuantileShares | pkg/loadbalancer/rif_distribution.go:79-89 | from 16 samples on, for q in [0, 1), the answer is valid and a sample; at most (1-q)n samples lie above it and, for q > 0, fewer than qn below |
| RifWindow.QuantileMonotone | pkg/loadbalancer/rif_distribution.go:65-89 | a larger q never gives a lower answer, the q >= 1 branch included |
| RifWindow.ValidFrom16 | pkg/loadbalancer/rif_distribution.go:65-73 | an answer is valid if and only if there are at least 16 samples, whatever q is; q >= 1 gives the greatest 32-bit number; negative q counts as zero |
| RifWindow.MissValidFrom16 | pkg/loadbalancer/rif_distribution.go:60-70 | with ordered times a query that misses the cache is answered validly if and only if the history has at least 16 samples not aged out |
| RifWindow.QueryUsesCache | pkg/loadbalancer/rif_distribution.go:51-58 | a cached answer for the same q serves for 100 ms and changes nothing; any other query evicts, answers and replaces it |
| RifWindow.FreshMeaning | pkg/loadbalancer/rif_distribution.go:94 | the filter keeps exactly the samples strictly younger than the cutoff |
| SelectionRule.ThresholdOfHistory | pkg/loadbalancer/balancer.go:399-402 | over every run with ordered times the threshold a query uses is -1 below 16 samples of the history not aged out, else the greatest 32-bit number for q >= 1, else a RIF of those samples with its shares above and below, as of a query less than 100 ms before |
| RifDistribution.FirstReachingIsKth | pkg/loadbalancer/rif_distribution.go:79-87 | the first key at which the running count reaches the target is the max(1, ceil(target))-th smallest sample |
| RifDistribution.WalkComplete | pkg/loadbalancer/rif_distribution.go:88-89 | after all keys the running count is the number of samples, so the final return is unreachable |
| RifDistribution.WalkStep | pkg/loadbalancer/rif_distribution.go:79-87 | before each key the running count is the number of samples below it, after it the number at most it |
| RifDistribution.HistogramGains | pkg/loadbalancer/rif_distribution.go:44-49 | counting an appended sample keeps the histogram equal to the multiset of samples, without zero counts |
| RifDistribution.HistogramLosesFirst | pkg/loadbalancer/rif_distribution.go:94-101 | decrementing and deleting at zero keeps it equal to the multiset of what is left |
| RifDistribution.CopyWithin | pkg/loadbalancer/rif_distribution.go:109-112 | the in-place forward copy delivers the old contents even where the ranges overlap |
| RifDistribution.RIFDistribution.Observe | pkg/loadbalancer/rif_distribution.go:44-49 | appends the sample to the window, histogram in step |
| RifDistribution.RIFDistribution.EvictLocked | pkg/loadbalancer/rif_distribution.go:92-116 | drops the longest stale prefix, histogram in step |
| RifDistribution.RIFDistribution.DropFirst | pkg/loadbalancer/rif_distribution.go:102-115 | each of the three compactions leaves samples[cut:]; the copy-down branch is taken only when its two ranges are disjoint |
| RifDistribution.RIFDistribution.UncountStale | pkg/loadbalancer/rif_distribution.go:93-101 | the loop stops at the longest stale prefix and uncounts exactly that |
| RifDistribution.RIFDistribution.Walk | pkg/loadbalancer/rif_distribution.go:79-89 | the loop over sorted keys returns the order statistic of the samples |
| RifDistribution.RIFDistribution.ComputeQuantile | pkg/loadbalancer/rif_distribution.go:60-90 | evicts, then answers as sorting the samples and indexing does, and the answer is valid if and only if at least 16 samples are left |
| RifDistribution.RIFDistribution.Quantile | pkg/loadbalancer/rif_distribution.go:51-58 | takes the machine's query step, cache included |
| OrderStatistics.KthIff | pkg/loadbalancer/rif_distribution.go:79-87 | a value is the k-th smallest if and only if it occurs, fewer than k are below it and at least k at most it |
| Basics.TruncIsTowardZero | pkg/loadbalancer/balancer.go:567 | conversion of a float to an integer goes to the next whole number toward zero |
| LoadBalancer.LoadBalancer.HandleProbeResult | pkg/loadbalancer/balancer.go:229-274 | a failed probe changes nothing; a success inserts an entry with what was reported behind exactly what has not expired and observes the RIF; the published array is not written and the ledger stays balanced |
| LoadBalancer.LoadBalancer.SelectServerPrequal | pkg/loadbalancer/balancer.go:396-468 | takes the removals due, hands out the first best fresh entry of what they leave at the threshold of the window, and returns its server, the one the ledger records, or the drawn one with fewer than two fresh; the pick record has its class, threshold, pool size and fresh count |
| LoadBalancer.LoadBalancer.FindWinner | pkg/loadbalancer/balancer.go:417-458 | the loop over the published list makes the machine's decision |
| LoadBalancer.LoadBalancer.ConsumeEntry | pkg/loadbalancer/balancer.go:470-491 | bumps the server's pooled entries, spends one use, and takes the entry out when none is left; an entry that has left the list before is spent all the same |
| LoadBalancer.LoadBalancer.ApplyRRemove | pkg/loadbalancer/balancer.go:522-551 | takes down min(floor(debt + RRemove), size) entries in turn and keeps the fraction owed and the turn; without a removal rate it changes nothing |
| LoadBalancer.LoadBalancer.SelectServerRR | pkg/loadbalancer/balancer.go:388-394 | returns the server at counter mod n and moves the counter on modulo 2^32; none without servers |
| LoadBalancer.LoadBalancer.SelectServer | pkg/loadbalancer/balancer.go:381-386 | each algorithm returns, records and changes what its own selection does, as stated there, and leaves the other's state alone; a query is refused only when there is no server |
| LoadBalancer.PickFromMeaning | pkg/loadbalancer/balancer.go:440-467 | the answer is the first best fresh entry's server, or the drawn one; the record says no-pool, cold or hot as the choice was |
| LoadBalancer.SelectMeaning | pkg/loadbalancer/balancer.go:396-468 | removals, choice, answer, record and ledger of one query agree on the same entry |
| LoadBalancer.LoadBalancer.constructor | pkg/loadbalancer/balancer.go:81-107 | starts with an empty pool and no debt; the window falls back to the pool's lifetime |
| LoadBalancer.LoadBalancer.AddServer | pkg/loadbalancer/balancer.go:377-379 | appends the server and touches nothing else |
| PoolSlices.PruneEntries | pkg/loadbalancer/balancer.go:254-261 | builds the pruned list in a fresh array |
| PoolSlices.AppendEntry | pkg/loadbalancer/balancer.go:276-284 | builds the longer list in a fresh array, less its first entry over capacity |
| PoolSlices.DropEntry | pkg/loadbalancer/balancer.go:482-487 | builds the list without the used entry in a fresh array, whether or not the list still holds it |
| PoolSlices.FindVictim | pkg/loadbalancer/balancer.go:579-602 | the removal loop finds the scan's victim, and finds one whenever the pool is not empty |
| PoolSlices.RemoveWorstEntry | pkg/loadbalancer/balancer.go:560-607 | removes the victim on slices as on values, leaving the old array unwritten |
| Rings.PushSummarises | pkg/loadbalancer/balancer.go:514-518 | a push keeps the ring equal to the end of the unbounded log |
| Rings.BackwardWalk | pkg/loadbalancer/balancer.go:722-725 | the modular index of the k-th step back is in range and holds the k-th most recent element |
| Rings.RecentPicks.Record | pkg/loadbalancer/balancer.go:513-519 | the ring goes on refining the log with the pick appended |
| Rings.RecentPicks.Snapshot | pkg/loadbalancer/balancer.go:722-736 | returns the last min(100, N) picks, newest first |
| Rings.SlotsAreWindow | backend/main.go:45-53 | the filled slots are, as a multiset, the last min(256, N) samples |
| Rings.EstimateForgetsRotation | backend/main.go:55-82 | the estimate does not depend on the ring's rotation |
| Rings.EstimateIsMedian | backend/main.go:55-82 | counted on the samples, the estimate is the latency of a sample near the current RIF at position floor(m/2) of the m near ones in order, of any sample when none is near, 0 without samples |
| Rings.LastNMeaning | pkg/loadbalancer/balancer.go:715-736 | the end of a log is its last min(n, N) elements in order |
| Rings.LatencyRing.RecordLatency | backend/main.go:45-53 | appends to the log; the first fill slots are its last min(256, N) samples as a multiset |
| Rings.LatencyRing.MedianLatencyUs | backend/main.go:55-82 | returns the floor(m/2) order statistic of the samples within 2 of the current RIF in the window, of all when there are none, 0 without samples |
| RoundRobin.WindowEven | pkg/loadbalancer/balancer.go:388-394 | in a window that does not cross the wrap every server gets floor(m/n) or ceil(m/n) picks |
| RoundRobin.OnePick | pkg/loadbalancer/balancer.go:392-393 | one pick takes server counter mod n and moves the counter on modulo 2^32 |
| RoundRobin.WindowAcrossWrap | pkg/loadbalancer/balancer.go:392-393 | in a window that crosses the wrap once two servers differ by 2 at most |
| RoundRobin.AlwaysEvenIff | pkg/loadbalancer/balancer.go:392-393 | all windows of any length are even within 1 if and only if n divides 2^32 |
| RoundRobin.UnevenWindow | pkg/loadbalancer/balancer.go:392-393 | otherwise a window of 2^32 mod n + 1 picks gives one server two and another none |
| ProbeRate.RateWithin | pkg/loadbalancer/balancer.go:165-190 | the rate stays between min(RProbeMin, RProbe) and RProbe |
| ProbeRate.RateExactly | pkg/loadbalancer/balancer.go:165-184 | the rate at every load: RProbe up to the low mark or without adaptation, min(RProbeMin, RProbe) from the high mark on, and on the straight line through both in between |
| ProbeRate.RateFallsGently | pkg/loadbalancer/balancer.go:175-184 | one more forwarded request never raises the rate and lowers it by (rMax-rMin)/(hi-lo) at most, across all branches |
| ProbeRate.RateMonotone | pkg/loadbalancer/balancer.go:175-184 | the rate is nonincreasing in the load |
| ProbeRate.CountIsFloorOrCeiling | pkg/loadbalancer/balancer.go:150-163 | the number of probes is the floor or ceiling of the rate, and the rate itself when whole |
| ProbeRate.NoCountWithoutRate | pkg/loadbalancer/balancer.go:152-154 | at a rate of zero or less no probe is sent |
| ProbeRate.GridAverage | pkg/loadbalancer/balancer.go:155-158 | over N equally spaced draws with N r whole, the counts add up to exactly N r |

## Left out

- Forwarding requests, the reverse proxy, the probe's HTTP exchange and header parsing: a probe is a reported result or a failure.
- The idle and ticker probe loops: a probe result may arrive at any time.
- Which servers a round of probes goes to: a random permutation of the server list, cut to the count.
- Metrics, statistics counters, logging, and the JSON form of the debug snapshot; of the snapshot only the walk over recent picks is modelled.
- Flags, environment and configuration defaults.
- The fields `RIF` and `Latency` of `Server`, which are written by probe results and never read.
- 32-bit overflow of RIFs and uses and 64-bit overflow of latencies: entries hold unbounded integers. Samples of the window are 32-bit.
- Rounding of `float64`: quantiles, debts and rates are reals.
- Sorting by the Go library is the function `OrderStatistics.Sort`, shown to be the sorted permutation.
- The locks of the classes: `LoadBalancer`, `RifDistribution` and `Rings` take whole operations one at a time. Overlap is the subject of `Interleaving` and `WindowInterleaving`, where atomic loads, stores and adds are sequentially consistent; the two are separate, so the threshold a query uses is arbitrary in `Interleaving`.
- Interleaving.SerialStep: which entries pruning and removal take out is arbitrary there, as is every threshold and cutoff, so the bounds hold for whatever they do; a discard of an entry already gone stores an equal list where the code stores none.
- A negative pool capacity, which makes the code panic.
- The backend's work loop, its simulated interference and resource measurements.
