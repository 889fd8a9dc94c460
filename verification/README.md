# Mezzium, modelled and verified in Dafny

Mezzium is a load-balancing proxy in front of many blockchain nodes. Its instances find each other by
announce and gossip, keep a registry of upstream nodes per network, check the health of those nodes, fail
over between them under rate limits, and answer gas and NFT requests. This project models the parts of that
behaviour that carry state, order or arithmetic and proves what they keep over whole runs.

Check it with `dafny verify dfyconfig.toml` (Dafny 4.11).

## How it is organised

- **Cluster membership.** `Peers` (the store), `Leader` (election), `Gossip` (what one node executes),
  `Cluster` (all nodes, the messages in flight and every interleaving of boot, join, send, deliver, lose,
  success and failure) and `ClusterCode` (that code takes those steps). Main results: membership safety in every reachable state, termination of
  failure-free gossip, one leader after failure-free joining from one seed, a run showing that failed sends
  can split the leadership for good, and the exact condition: at quiescence, whatever failed before, two
  nodes follow the same leader if and only if a chain of "knows" edges links them.
- **Failover and rate limits.** `Throttle` (the back-off table and its event log), `StableOrder`,
  `Failover` (the five copies of the grouped retry loop) and `ThrottleRuns` (runs of calls). Main results:
  the map-grouped loops visit nodes in the order of a stable sort, the copies choose the same winner and
  leave the same table, and repeated rate limits of a URL are spaced by the sum of the back-offs.
- **Node registry.** `Nodes`, `Pick`, `Health`, `Merge` and `RegistryModel` hold what each operation does
  to a network as a value; `Slices` and `Registry` hold the operations as they run, on arrays compacted in
  place; `RegistryRuns` is the state machine, and `Requests` shows that every handler and worker takes one
  of its steps. Main results: the invariants of `All`, `Best` and `Discovered` over every run, dropped
  stays dropped, exact prune-and-merge, and what the advert handler's nested passes amount to: under any
  clock the URLs of one capped scan, and the same node list exactly when no repeat outlives its original.
- **Limiter and gas cache.** `Limiter` (health workers under every interleaving) and `GasCache` (timed
  runs).
- **Encodings.** `Hex`, `Abi` (call data of the NFT endpoints, following the Solidity Contract ABI
  Specification, section "Formal Specification of the Encoding") and `Fees` (wei, gwei and fee tiers in
  64-bit arithmetic).

Code that changes things in place is a class or a method here, proved against a function on values; the
lemmas over runs are about those functions. What such a function computes is in turn stated by laws that do
not use it: literal values, positions, and what is left unchanged.

## Assumptions

- Every booted node has an ID and an address no other booted node has, and a POST to an address reaches the
  node that booted with it. A POST may also be reported successful without having been delivered, and any
  message may be delayed or lost. An announce is handled in one step at the server; its reply travels as a
  message of its own and may be lost.
- Handlers and locked methods are atomic steps. A health round is many: its start, which hands every worker
  its network, and for each network a check and a `SetBest`; anything may happen between them. The `Best`
  within `All` invariant is about runs in which no admin request deletes from a network while its check is in
  flight, or replaces one between the start of a round and the end of its check. `DeleteDuringCheck`,
  `ReplaceDuringCheck` and `ReplaceBeforeCheck` say exactly when such a request breaks it, and "dropped stays
  dropped" holds in runs with such requests too.
- Clock readings, random picks and the answers of upstreams are inputs. The only demand on clocks, where
  stated, is that readings do not decrease. The signature check of an announce and the rate-limit heuristics
  on headers and bodies are booleans.
- The order of a map iteration is arbitrary: loops over maps take any remaining key.

## Where the code and its documentation differ

- The repository's README (`README.md:68-70`) says that discovered nodes expire unless a health check
  validates them. In the code every unexpired discovered entry is merged into `All` at the next prune,
  unvalidated, and its expiry never takes it out of `All` again; only a fatal health failure or an admin
  does. The model follows the code (`Merge.MergeUrls`, `RegistryRuns.DroppedStaysDropped`).
- A comment in `pkg/gossip/state.go:70` says that adverts are added to `All`. They go to `Discovered`, and
  the nested loops append the same URLs several times (`Merge.NestedExtendsSimple`).
- Deleting a node by an admin request leaves `Discovered` alone, so the node can come back
  (`RegistryRuns.DeletedComesBackIff`).

## Model

| member | source | states |
|---|---|---|
| `Peers.Store.Add` | pkg/peers/store.go:9-13 | the entry is stored under its own ID, so keys and IDs keep agreeing |
| `Peers.Store.List` | pkg/peers/store.go:21-29 | every entry exactly once, in an arbitrary order |
| `Peers.Store.OnFailure` | pkg/peers/store.go:30-41 | one more failure is counted, and the second uncleared one removes the entry; unknown IDs are ignored |
| `Peers.Store.OnSuccess` | pkg/peers/store.go:42-49 | the failure count returns to 0; unknown IDs are ignored |
| `Peers.ListingContents` | pkg/peers/store.go:21-29 | any listing has exactly the IDs and entries of the store, each once |
| `Peers.AddAllContents` | pkg/gossip/gossip.go:61-64 | merging a peer list adds exactly its IDs; other entries stay, merged ones come from the list |
| `Peers.LastWins` | pkg/gossip/gossip.go:61-64 | of several merged entries with one ID the last one counts |
| `Peers.SurvivesIffNeverFailedTwice` | pkg/peers/store.go:30-49 | between two `Add`s an entry survives a trace of reports if and only if no two failures of it occur without a success between, and its count is 1 exactly when a failure is uncleared |
| `Leader.Elect` | pkg/leader/leader.go:24-35 | the result is the least ID of the list, whatever its order, and the empty string for an empty list |
| `Common.BelowIff` | pkg/leader/leader.go:28-32 | the order of IDs: a proper prefix is smaller, otherwise the smaller character at the first difference decides |
| `Leader.LeaderNeverIncreases` | pkg/leader/leader.go:24-35 | learning of more peers never moves the leader to a larger ID |
| `Gossip.Handler` | pkg/gossip/gossip.go:49-69 | the store becomes its merge with the message |
| `Gossip.BeginTick` | pkg/gossip/gossip.go:18-31 | sends the whole table to the randomly picked peer, and nothing exactly when the node knows at most one peer or picked itself |
| `Gossip.EndTick` | pkg/gossip/gossip.go:34-42 | a failed POST counts as a failure of the target, any other as a success |
| `Gossip.ServeAnnounce` | pkg/bootstrap/handler.go:25-58 | a signed announce adds the newcomer and returns a listing with the server appended; an unsigned one changes nothing |
| `Gossip.InitBootstrap` | cmd/app/bootstrap.go:13-39 | a node starts with itself and adds every peer of the reply but itself |
| `Gossip.WelcomedMeaning` | cmd/app/bootstrap.go:23-36 | a newcomer knows itself, with the entry it made, and exactly the peers of the reply, each as the reply's last entry of that ID |
| `ClusterCode.Tick` | pkg/gossip/gossip.go:18-34 | a tick that sends takes the send step of the cluster |
| `ClusterCode.PostReturned` | pkg/gossip/gossip.go:34-42 | the return of the POST takes the success or failure step |
| `ClusterCode.Receive` | pkg/gossip/gossip.go:49-69 | the handler takes the delivery step |
| `ClusterCode.Announced` | pkg/bootstrap/handler.go:46-55 | a signed announce takes the join step at the server, and its reply is the message put in flight |
| `ClusterCode.StartUp` | cmd/app/bootstrap.go:13-39 | start-up takes the boot step, or delivers the reply to the newcomer |
| `Cluster.MergedIds` | pkg/gossip/gossip.go:61-64 | a merge leaves the union of the receiver's and the message's IDs |
| `Cluster.MembershipStep` | pkg/gossip/gossip.go:18-69 | every step keeps membership safety, with sends failing and messages delayed or lost |
| `Cluster.MembershipAlways` | pkg/peers/store.go:9-49 | in every reachable state keys equal IDs, stores and messages mention booted nodes only, at their own addresses, every node is in its own store, and every failure count is 0 or 1 |
| `Cluster.ReportMeaning` | pkg/peers/store.go:30-49 | a returned POST clears, counts or removes the entry of its target and affects no other entry, node or message |
| `Cluster.StepGrows` | pkg/gossip/gossip.go:30-46 | without failing sends no node ever forgets an ID |
| `Cluster.DeliveryIsUnion` | pkg/gossip/gossip.go:61-64 | a delivery leaves the receiver with the union of IDs and a leader no larger than before, and changes no other node |
| `Cluster.UnknownStep` | pkg/gossip/gossip.go:18-69 | among booted nodes the number of unknown IDs never grows, and every informative delivery makes it smaller |
| `Cluster.GossipTerminates` | pkg/gossip/gossip.go:18-69 | in a failure-free run of any length at most as many deliveries change anything as there were unknown IDs at its start |
| `Cluster.KnownIsCovered` | pkg/gossip/gossip.go:18-41 | at quiescence a known node knows everything its knower knows |
| `Cluster.AgreementAlongChain` | pkg/gossip/gossip.go:18-41 | at quiescence nodes linked by "knows" edges in either direction have equal ID sets and the same leader |
| `Cluster.OneLeader` | cmd/app/bootstrap.go:23-36 | when all nodes joined from one seed and no send failed, at quiescence every node knows exactly the booted nodes and follows the least booted ID |
| `Cluster.CanGoQuiet` | pkg/gossip/gossip.go:18-46 | from every reachable state some failure-free continuation among the booted nodes reaches quiescence |
| `Cluster.SameLeaderIffConnected` | pkg/gossip/gossip.go:18-41 | at quiescence, with sends failing before or not, two nodes follow the same leader if and only if a chain of "knows" edges links them, and if and only if they know the same nodes |
| `Cluster.AgreementIff` | pkg/leader/leader.go:24-35 | the same for every run of the cluster that has gone quiet |
| `Cluster.OneLeaderIffConnected` | pkg/leader/leader.go:24-35 | at quiescence all nodes follow the least booted ID if and only if every two of them are linked |
| `Cluster.FailuresCanSplit` | pkg/peers/store.go:30-41 | two failed sends each way lead a cluster of any two nodes into a quiescent state with two leaders: `OneLeader` needs its hypothesis, and `SameLeaderIffConnected` is the exact condition |
| `Throttle.Throttler.IsThrottled` | pkg/api/throttle.go:27-34 | true exactly before the URL's deadline |
| `Throttle.Throttler.Mark429` | pkg/api/throttle.go:38-53 | the count grows by one and the deadline is the pause of the new count away (`BackoffSchedule`); the 64-bit doubling loop never overflows, for any count |
| `Throttle.BackoffSchedule` | pkg/api/throttle.go:21-22 | the pauses are 30, 60, 120, 240, 480 and then always 600 seconds, each the smaller of twice the one before and 600 |
| `Throttle.Throttler.Reset` | pkg/api/throttle.go:56-61 | deadline and count of the URL are forgotten, nothing else |
| `Throttle.CountMeansLog` | pkg/api/throttle.go:38-61 | a URL's count is the number of its marks since its last reset, and both maps have it exactly when that is positive |
| `Throttle.DeadlineMeansLog` | pkg/api/throttle.go:43-52 | a URL's deadline is its last mark plus the back-off of its count |
| `Throttle.ThrottledIff` | pkg/api/throttle.go:27-53 | a URL is throttled if and only if it has marks since its last reset and the pause for their number, in literal seconds, has not passed since the last of them |
| `Throttle.DeadlinesNeverMoveEarlier` | pkg/api/throttle.go:38-53 | under a non-decreasing clock a deadline never moves earlier between resets |
| `Throttle.PausesSum` | pkg/api/throttle.go:45-52 | the pauses add up to 30, 90, 210, 450, 930 seconds and 600 more each time |
| `Throttle.MarksAreCounted` | pkg/api/throttle.go:41-42 | the number of marks is the number of positions that mark the URL |
| `Throttle.MarksAreSpread` | pkg/api/throttle.go:27-53 | k marks made only when the URL is not throttled, with no reset between, span at least those sums for k-1 |
| `StableOrder.StableSortMeaning` | pkg/api/public.go:420-423 | the reference order is a stable sort by priority: sorted, and every priority keeps its nodes in their original order |
| `StableOrder.StableSortUnique` | pkg/api/public.go:420-423 | a list has only one stable sort by priority |
| `StableOrder.StableSortPositions` | pkg/api/public.go:420-423 | the stable sort takes every position once, by priority and, where that is equal, by position |
| `StableOrder.GroupingIsStableSort` | pkg/api/public.go:409-423 | walking the priority groups in ascending order is walking the stable sort |
| `Failover.GroupUnthrottled` | pkg/api/public.go:409-420 | the groups of the nodes not throttled at entry, flattened by ascending priority, are their stable sort |
| `Failover.OutcomeKinds` | pkg/api/public.go:437-444 | a 429 or a disguised rate limit is never a success; any other answer succeeds exactly with a status from 200 to 299 |
| `Failover.AdmittedPositions` | pkg/api/public.go:411-419 | the nodes that enter the groups are those at exactly the positions not throttled when looked at, in order |
| `Failover.OrderPositions` | pkg/api/public.go:409-423 | a call goes through exactly those positions, each once, by priority and then by position |
| `Failover.NobodySkipped` | pkg/api/public.go:409-457 | a call without a winner contacted every node not throttled at entry and none succeeded; a winner succeeded, and every such node before it was contacted and did not |
| `Failover.Handle` | pkg/api/public.go:430-451 | a rate limit marks the node, a 2xx resets it and wins, and errors or other statuses change nothing |
| `Failover.TryForwardJSONRPCToNodes` | pkg/api/public.go:408-457 | nodes are contacted in stable order up to the first success, whose answer is returned, or 502 without one; the throttler changes by exactly the answers of the contacted nodes |
| `Failover.ForwardFirst2xx` | pkg/api/public.go:460-502 | the same contacts and throttler changes; true exactly when some node succeeded |
| `Failover.CallFirst2xx` | pkg/api/public.go:505-547 | the same contacts and throttler changes; the first success's body, or nothing |
| `Failover.EthMaxPriorityFee` | pkg/api/public.go:195-258 | the same contacts and throttler changes; the first success is returned, 503 for a network without nodes and 502 when all fail |
| `Failover.HandleFee` | pkg/api/public.go:128-185 | the second request only after a usable first answer; a rate limit of either marks the node, two usable answers reset it and win |
| `Failover.AsOneMeaning` | pkg/api/public.go:128-185 | a fee contact is a rate limit if its first answer is, or its first is usable and its second is; it succeeds if both are usable |
| `Failover.EthFee` | pkg/api/public.go:81-192 | the same contacts and throttler changes, a node succeeding when both its answers are usable; 200 with its fees, or 502 |
| `Failover.TryGroups` | pkg/api/public.go:422-453 | walking the groups contacts the flattened order up to the first success, and changes the throttler by exactly those answers |
| `Failover.ServedOneWay` | pkg/api/public.go:408-547 | nodes, throttler and upstream behaviour determine winner and final throttler, so the copies agree |
| `ThrottleRuns.CallTouches` | pkg/api/public.go:422-453 | on URL-distinct nodes a call changes each contacted URL's entry by that node's own answer: rate-limited ones marked, the winner reset, others kept |
| `ThrottleRuns.CallSkips` | pkg/api/public.go:422-453 | URLs a call does not contact keep their entries |
| `ThrottleRuns.OrderIsDue` | pkg/api/public.go:411-419 | every node a call may contact is past its deadline, still so when its answer is handled |
| `ThrottleRuns.RunIsSpaced` | pkg/api/public.go:408-547 | the final throttler of a run replays the run's history, in which every mark came after its URL's deadline |
| `ThrottleRuns.ThrottleSpacing` | pkg/api/public.go:409-441 | over any run of calls of any of the copies, k rate-limited contacts of a URL with no success between span at least the sum over n = 1..k-1 of min(30s * 2^(n-1), 600s): 30, 90, 210, 450, 930 seconds for two to six of them and 600 more for each further one |
| `ThrottleRuns.AscendingListInOrder` | pkg/api/public.go:409-423 | a list strictly ascending in priority, such as a best list, is tried as its unthrottled sublist in order |
| `Pick.PickFastestPerPriority` | pkg/registry/registry.go:59-79 | strictly ascending priorities, exactly those with an alive node, each with the earliest alive node of least ping |
| `Pick.PickUnique` | pkg/registry/registry.go:59-79 | that description has one solution, so map iteration order does not matter |
| `Pick.FastestOfGroup` | pkg/registry/registry.go:68-74 | the running minimum of a group is the earliest fastest alive node of that priority in the whole list |
| `Health.Checker.MarkDrop` | pkg/health/check.go:175-179 | the URL joins the drop set |
| `Health.Checker.DrainDropURLs` | pkg/health/check.go:182-191 | returns exactly the marked URLs, each once, and clears them |
| `Health.Checker.UpdateNetwork` | pkg/health/check.go:82-127 | the result is the pick from the check results, and exactly the fatally failing URLs are marked |
| `Health.ResultsMeaning` | pkg/health/check.go:87-125 | the results keep the nodes, alive exactly for those that answered, with their ping |
| `Health.BestIsChecked` | pkg/health/check.go:82-127 | a best list names alive nodes of the checked list only, in strictly ascending priority |
| `Health.PickUrlDistinct` | pkg/health/check.go:82-127 | from URL-distinct nodes the best list is URL-distinct too |
| `Merge.MergeUrls` | pkg/registry/registry.go:143-156 | the new URL set is the old one plus the URLs of the unexpired entries |
| `Merge.MergeKeeps` | pkg/registry/registry.go:143-156 | the old `All` is a prefix of the new one, and URL-distinctness is kept even when entries repeat URLs |
| `Merge.MergeAppends` | pkg/registry/registry.go:143-156 | each appended node is the first entry of its URL, the URL was not listed, and the order is that of the entries |
| `Merge.PruneTwice` | pkg/registry/registry.go:129-158 | a second prune at any later time with no step between leaves `All` unchanged |
| `Merge.PruneExactly` | pkg/registry/registry.go:133-156 | a prune keeps exactly the unexpired entries, in order, lists exactly their URLs in addition, and leaves `Best` alone |
| `Merge.AdvertisedUrls` | pkg/gossip/state.go:72-98 | under any clock, with any room, the nested passes and the single capped scan discover the same URLs: the first unlisted ones the advert names, as many as fit |
| `Merge.NestedExtendsSimple` | pkg/gossip/state.go:72-98 | under any clock the nested passes append what the single scan appends, followed by entries of the same unlisted nodes again |
| `Merge.AdvertRefinesScan` | pkg/gossip/state.go:72-98 | under any clock the URL sets agree, and a prune at any time gives the same `All` if and only if every repeat unexpired then has an unexpired entry of its URL in the single scan |
| `Merge.AgreeOutsideExpiry` | pkg/gossip/state.go:92 | under a non-decreasing clock that holds at every time before the first or after the last entry of the advert expires, hence always with one reading per message |
| `Merge.FurtherAdvertIff` | pkg/gossip/state.go:72-98 | one more advert for a network that has discovered the same URLs in more entries: the URL sets stay equal if and only if every unlisted node that only the shorter list has room for is discovered or named before it |
| `Merge.RepeatedNameIff` | pkg/gossip/state.go:72-98 | the same for a message that names a network twice |
| `Merge.RepeatedNameDiffers` | pkg/gossip/state.go:72-98 | an instance in which they differ: repeats fill the list and shut out a URL |
| `Merge.AdvancingClockDiffers` | pkg/gossip/state.go:92 | an instance of uncovered repeats: the clock advances with every append, and a prune lists a node the single scan lost |
| `Merge.AdvertSize` | pkg/gossip/state.go:76-89 | every unlisted node is appended once more for each of them, up to 20 entries in all |
| `Merge.FindsRoom` | pkg/gossip/state.go:76-89 | an unlisted node with fewer than 20 entries and advertised nodes before it becomes known |
| `Merge.AdvertThenPrune` | pkg/registry/registry.go:133-156 | a URL an advert makes known is listed by a prune before its entries expire and not by one after |
| `Merge.ListedAsAdvertised` | pkg/gossip/state.go:90-93 | what is listed for it carries an advertised priority of that URL, no headers and no Tor flag |
| `RegistryModel.AnyOrder` | pkg/registry/registry.go:133-178 | visiting all networks in any map order is one application to every network |
| `RegistryModel.UnnamedUntouched` | pkg/gossip/state.go:72-73 | networks no advert names stay as they were |
| `RegistryModel.MessageRefinesScans` | pkg/gossip/state.go:72-98 | for a whole message with one advert per network name, under any clock, every network discovers what the single scan discovers, and a prune gives it the same `All` if and only if the repeats of its advert are covered |
| `RegistryModel.AdvertisedIsListed` | pkg/gossip/state.go:70-98 | a URL that a message makes known is listed, as advertised, by a prune less than 600 seconds after the message was handled, and not by a prune 600 seconds after it or later |
| `Slices.Append` | pkg/registry/registry.go:118 | Go's append: the prefix grows by one element, in place while there is room |
| `Slices.Compact` | pkg/registry/registry.go:181-187 | the `x[:0]` loop, reading and writing one array, leaves exactly the order-preserving filter and touches nothing beyond its end |
| `Registry.NetworkState.Lists` | pkg/registry/registry.go:146-152 | reports exactly whether the URL is listed |
| `Registry.NetworkState.KeepUnexpired` | pkg/registry/registry.go:135-141 | `Discovered` becomes its unexpired entries, in a fresh slice |
| `Registry.NetworkState.MergeDiscovered` | pkg/registry/registry.go:143-156 | `All` grows by the discovered nodes whose URL it lacks |
| `Registry.NetworkState.MergeAdvert` | pkg/gossip/state.go:74-97 | the nested loops append the unlisted nodes round and round until 20 entries are held |
| `Registry.NetworkState.Remove` | pkg/registry/registry.go:178-209 | the three compactions remove the URL from the three lists |
| `Registry.NetworkState.DeleteListed` | pkg/api/admin.go:156-171 | both filter loops rebuild `Best` and `All` without the URL and leave `Discovered` alone |
| `RegistryModel.RemovalReduces` | pkg/registry/registry.go:175-210 | removing a URL leaves in every list of every network exactly the other entries, each occurrence once and in order |
| `RegistryModel.DropReduces` | cmd/app/health.go:86-90 | the same for all URLs of a drain |
| `RegistryModel.DeletionReduces` | pkg/api/admin.go:156-171 | an admin deletion leaves exactly the other entries of `All` and `Best`, in order, and `Discovered` as it is |
| `Registry.Registry.RemoveNodeEverywhere` | pkg/registry/registry.go:175-210 | every network loses the URL from all three lists and nothing else |
| `Registry.Registry.PruneAndMerge` | pkg/registry/registry.go:129-158 | every network is pruned and merged at one clock reading |
| `Registry.Registry.Best` | pkg/registry/registry.go:38-47 | a copy of the best list in an array of its own; empty for an unknown network |
| `Registry.Registry.SetBest` | pkg/registry/registry.go:30-36 | replaces one network's best list; an unknown network is ignored |
| `Registry.Registry.AddNode` | pkg/registry/registry.go:114-120 | appends to one network's `All` only; an unknown network is ignored |
| `Registry.Registry.AppendBest` | pkg/registry/registry.go:122-128 | appends to one network's `Best` only; an unknown network is ignored |
| `Registry.Registry.AddNetwork` | pkg/registry/registry.go:80-91 | adds or replaces one network, with nothing discovered; the others stay, and a replaced one is no longer the registry's |
| `Registry.Registry.DeleteNode` | pkg/api/admin.go:150-171 | one network loses the URL from `All` and `Best`; the others stay |
| `Registry.Registry.StateHandler` | pkg/gossip/state.go:59-102 | every advert of a known network is merged in message order; others are ignored |
| `Registry.BestSurvivesRemoval` | pkg/registry/registry.go:38-47 | a list returned by `Best` is unchanged by later in-place removal |
| `Registry.DropAll` | cmd/app/health.go:86-90 | every network loses the drained URLs and nothing else |
| `RegistryRuns.InitialConsistent` | pkg/registry/registry.go:13-28 | a configured registry is consistent, and tidy if and only if no configured network repeats a URL |
| `RegistryRuns.FromConfigs` | pkg/registry/registry.go:13-28 | so both invariants hold in every undisturbed run from configuration |
| `RegistryRuns.AlwaysConsistent` | pkg/registry/registry.go:30-158 | in every undisturbed run, admin adds included, `Discovered` has at most 20 entries and every best URL is in `All` |
| `RegistryRuns.AlwaysTidy` | pkg/registry/registry.go:129-158 | in every undisturbed run of duplicate-free steps `All` is URL-distinct and `Best` strictly ascending in priority |
| `RegistryRuns.AddNodeTidyIff` | pkg/api/admin.go:90-96 | an admin add keeps both properties if and only if the URL is new and the priority is above all of `Best` |
| `RegistryRuns.CheckRestoresOrder` | pkg/api/admin.go:90-96 | after any admin adds the next stored check makes `Best` strictly ascending again, with URLs in `All` |
| `RegistryRuns.DeleteDuringCheck` | pkg/api/admin.go:156-171 | deleting a URL between a network's snapshot and its `SetBest` leaves `Best` within `All` if and only if the pick did not contain the URL |
| `RegistryRuns.ReplaceDuringCheck` | pkg/registry/registry.go:80-91 | replacing a network whose check is in flight leaves `Best` within `All` if and only if the new network lists all URLs picked from the old one |
| `RegistryRuns.ReplaceBeforeCheck` | cmd/app/health.go:65-76 | the same when its worker still waits for the limiter: it checks the old network's nodes and stores the pick on the new one |
| `RegistryRuns.DrainDrops` | cmd/app/health.go:83-90 | the drain of a round leaves each marked URL in no list of any network |
| `RegistryRuns.DrainDropsOnly` | cmd/app/health.go:86-90 | and every other entry of every list stays, in order |
| `RegistryRuns.CheckMarks` | pkg/health/check.go:87-125 | a check marks exactly the nodes it found fatally broken |
| `RegistryRuns.RoundChecksAll` | cmd/app/health.go:65-67 | a round checks every network, with the nodes it has when its turn comes |
| `RegistryRuns.PruneStepExactly` | pkg/registry/registry.go:129-158 | a prune step keeps exactly the unexpired entries of a network and lists exactly their URLs in addition |
| `RegistryRuns.AdvertThenPruneStep` | pkg/gossip/state.go:70-98 | an unlisted advertised URL with room left is listed by a prune step exactly until 600 seconds after its message |
| `RegistryRuns.CheckServes` | cmd/app/health.go:75-76 | a network then serves the pick from the nodes that were checked, and no other network changes |
| `RegistryRuns.AddedNodeServes` | pkg/api/admin.go:90-96 | an added node is last in `All` and in `Best`, alive; nothing else changes |
| `RegistryRuns.AdminTouchesOne` | pkg/api/admin.go:57-171 | an added network serves the pick from its nodes; adding and deleting leave all other networks alone |
| `RegistryRuns.AdminMarks` | pkg/api/admin.go:57-61 | the check of an admin request marks exactly the nodes it found fatally broken, accepted or refused |
| `RegistryRuns.DroppedStaysDropped` | cmd/app/health.go:54-90 | a drained URL stays out of every list in every later state of any run, disturbed or not, until an advert or an admin add names it |
| `RegistryRuns.DeletedComesBackIff` | pkg/api/admin.go:156-171 | after an admin deletion the next prune lists the URL again if and only if an unexpired discovered entry carries it |
| `Requests.ReceiveAdverts` | pkg/gossip/state.go:70-100 | the advert handler takes the advert step of the run model |
| `Requests.PruneRound` | cmd/app/health.go:55 | the start of a round takes the prune step |
| `Requests.InitFromConfigs` | pkg/registry/registry.go:13-28 | the registry starts as the configured one |
| `Requests.StartRound` | cmd/app/health.go:65-67 | the start of a round hands every worker the network registered then and takes the round-start step |
| `Requests.CheckNetwork` | cmd/app/health.go:75 | a worker's check takes the check step on the network it was handed, registered still or replaced, with the nodes that has at that moment |
| `Requests.StoreCheck` | cmd/app/health.go:76 | storing the pick takes the second step of the check |
| `Requests.DropRound` | cmd/app/health.go:86-90 | draining and dropping take the drain step |
| `Requests.AddNetworkRequest` | pkg/api/admin.go:50-62 | the request is accepted exactly when route and protocol are given and a node is alive, and then takes the add step; refused, it leaves the registry alone and at most marks fatally failing URLs |
| `Requests.TrimSlashesMeaning` | pkg/api/admin.go:55 | the name is the route without its leading and trailing slashes, and nothing else is cut |
| `Requests.AddNetworkDuringRound` | pkg/registry/registry.go:80-91 | a worker that was handed the network before the request holds it still, with the nodes it had |
| `Requests.AddNodeRequest` | pkg/api/admin.go:90-96 | the same for one node of a known network; an unknown network is always refused |
| `Requests.DeleteNodeRequest` | pkg/api/admin.go:146-171 | deletes exactly when the URL is not empty and the network known, by the deletion step |
| `Limiter.PickLimiter` | cmd/app/health.go:95-105 | some domain contained in the first node's URL decides, in any map order, and the default only without one |
| `Limiter.ContainsIff` | cmd/app/health.go:99 | one string contains another if and only if it is that one between a start and an end |
| `Limiter.AccountedStep` | cmd/app/health.go:67-81 | every step of every worker keeps occupancy equal to the number of workers inside and within capacity |
| `Limiter.AlwaysAccounted` | cmd/app/health.go:67-81 | so under every interleaving and every assignment of limiters |
| `Limiter.SomeoneCanStep` | cmd/app/health.go:72-73 | while a worker is unfinished some worker can move: no deadlock |
| `Limiter.WorkRun` | cmd/app/health.go:66-83 | every step reduces the remaining work by one |
| `Limiter.WaitReturns` | cmd/app/health.go:83 | no schedule is longer than four steps per worker, and one that cannot go on has finished all workers |
| `Limiter.Workers.Advance` | cmd/app/health.go:70-81 | what a worker does next on the channels themselves is its step of the model |
| `Limiter.Workers.Wait` | cmd/app/health.go:83 | whichever worker moves next, the loop ends with every worker done and every limiter free |
| `GasCache.Cache.ServeGenericGas` | pkg/api/gas.go:139-199 | hit, official answer, computation and the two failures: which reply, what is filled, and an unchanged cache otherwise |
| `GasCache.ObtainedIff` | pkg/api/gas.go:151-185 | a request obtains the official body at a status from 200 to 299, otherwise the first computed one unless it is empty |
| `GasCache.EntryIsLastFill` | pkg/api/gas.go:154-191 | what is cached for a network is its last fill |
| `GasCache.FillsAreObtained` | pkg/api/gas.go:151-192 | every fill came from a 2xx official answer or a successful computation of a request for the same network |
| `GasCache.ServedIsFresh` | pkg/api/gas.go:139-148 | a body served from the cache was obtained for the same network less than its TTL earlier |
| `GasCache.HitIff` | pkg/api/gas.go:139-148 | the cache answers if and only if the network's last fill is less than its TTL old |
| `GasCache.MissIsCached` | pkg/api/gas.go:151-192 | a miss that obtains a body serves it to every later request within the TTL; any other request leaves the cache unchanged |
| `GasCache.FillsAreApart` | pkg/api/gas.go:139-199 | under a non-decreasing clock two fills of one network are at least its TTL apart |
| `GasCache.FillsPerWindow` | pkg/api/gas.go:139-199 | a window of length T holds at most T/TTL + 1 fills of a network |
| `Hex.ParsePrint` | pkg/adapters/nft.go:84-90 | parsing the decimal or hexadecimal printing of a number gives the number |
| `Hex.DigitTable` | pkg/adapters/nft.go:84-90 | the ten digits and the six letters in either case, each with its value, and nothing else |
| `Hex.SingleDigit` | pkg/adapters/nft.go:84-90 | one digit denotes its value if the base has it |
| `Hex.Positional` | pkg/adapters/nft.go:84-90 | positional notation: appended digits shift those before them by their number |
| `Hex.LowerTable` | pkg/adapters/nft.go:158 | every capital has its own small letter, and nothing else changes |
| `Hex.LowerKeepsDigit` | pkg/adapters/nft.go:158 | lower-casing keeps the value of every digit |
| `Hex.LowerKeepsNumber` | pkg/oracle/evm.go:124 | and of every number |
| `Hex.EncodeDecode` | pkg/adapters/nft.go:162-165 | hex-encoding the decoded bytes of lower-case digits gives the digits |
| `Abi.LeftPad32` | pkg/adapters/nft.go:96-100 | at most 32 bytes end up right-aligned behind zeros |
| `Abi.PaddedWord` | pkg/adapters/nft.go:92-100 | a padded word is 64 hex digits that read as the number its bytes denote |
| `Abi.UintRoundTrip` | pkg/adapters/nft.go:81-94 | the call data of a token ID n is selector and one word that decodes to n if n < 2^256; larger IDs panic, and only those |
| `Abi.TokenIdRoundTrip` | pkg/adapters/nft.go:129-140 | both token ID builders: each its own selector and the word of n below 2^256, a panic from there on |
| `Abi.SpellingsAgree` | pkg/adapters/nft.go:84-90 | decimal and 0x spellings of a number give the same call data |
| `Abi.TokenIdSpellings` | pkg/adapters/nft.go:84-90 | 0x and 0X mean the same, so do digits in either case, and a string of decimal digits without a prefix is decimal |
| `Abi.OwnerPanicsIff` | pkg/adapters/nft.go:96-100 | for any owner whatever, both owner builders panic if and only if it starts, after the prefix, with 33 pairs of hex digits |
| `Abi.AddressWord` | pkg/adapters/nft.go:158-164 | an owner's word is its leading pairs of hex digits, in lower case, behind zeros: for an address its 40 digits |
| `Abi.HexAddressIff` | pkg/adapters/nft.go:68-78 | an address is 40 hex digits in either case, with or without 0x or 0X |
| `Abi.AddressIsItsNumber` | pkg/adapters/nft.go:143-166 | in both calls the owner's word is the number its own 40 characters denote, in whatever case |
| `Abi.BalanceOfRecoverable` | pkg/adapters/nft.go:143-152 | the balance query is its selector, zeros and the digits of the owner |
| `Abi.WordsRecoverable` | pkg/adapters/nft.go:155-166 | the digits of the owner, up to letter case and prefix, and the index can be read back from the call data |
| `Abi.EqualDataIff` | pkg/adapters/nft.go:155-166 | for any owners, equal call data if and only if the owners' digits denote the same number and the indices are equal |
| `Abi.Injective` | pkg/adapters/nft.go:155-166 | for addresses, if and only if they are equal up to letter case and prefix and the indices are equal |
| `Abi.SameAddressIff` | pkg/adapters/nft.go:158-161 | two addresses agree after lower-casing if and only if they agree digit by digit |
| `Abi.EqualCallsIff` | pkg/adapters/nft.go:155-166 | equal call data if and only if the owners agree digit by digit and the indices are equal |
| `Fees.WeiToGweiIff` | pkg/oracle/evm.go:119-126 | parsing the hex printing of w gives floor(w / 10^9) if and only if w < 2^63 * 10^9, with or without 0x |
| `Fees.HexToInt64Iff` | pkg/oracle/evm.go:127-137 | a number survives if and only if it is below 2^63 |
| `Fees.WeiSpellings` | pkg/oracle/evm.go:119-126 | 0x, 0X and no prefix, capitals and small letters read alike, and the empty string is 0 |
| `Fees.Tiers` | pkg/oracle/bsc_gas.go:101-116 | the tiers lie the constant deltas apart if and only if their sums fit int64, and then ascend |
| `Fees.ComputeEth` | pkg/oracle/eth_gas.go:55-79 | tiers 5 and 10 gwei above the clamped priority fee, exactly when the sums fit; an error exactly when the client reports one |
| `Fees.ComputeBsc` | pkg/oracle/bsc_gas.go:68-117 | the same with 2 and 5 gwei; in the fallback the slow fee is max(gas price, clamped priority) |
| `Fees.SlowFeeError` | pkg/oracle/bsc_gas.go:101-108 | without clamping the slow fee in wei is at most the exact sum and less than 2 gwei below it |

## Left out

- Heartbeats, the advert publisher, `Store.Remove` and the announce client: no state the model depends on.
- `Gossip.BeginTick`: the JSON message and the HTTP POST itself; `Cluster` carries the peer list as a value.
- `Cluster.OneLeader`: is about runs without failing sends; with them it can fail (`FailuresCanSplit`), exactly when nodes get unlinked (`SameLeaderIffConnected`).
- `Cluster.CanGoQuiet`: that a quiet state can be reached; that it is reached needs a fair random choice of targets.
- `Throttle.Throttler.Mark429`: its table counts rate limits without bound, where Go's `int` would wrap after 2^63 of them.
- `ThrottleRuns.ThrottleSpacing`: is about calls made one after the other, not concurrently.
- `Failover.EthFee`: takes the response built from both answers as an input; the code keeps the fee history of an earlier node where a later answer lacks it.
- `Failover.Handle`: takes the header and body heuristics for disguised rate limits as a boolean.
- `RegistryRuns.AlwaysTidy`: leaves out the admin `AddNode`, which can repeat a URL or disturb the order; `AddNodeTidyIff` says when.
- `Registry.Registry.SetBest`: takes the picks as a value, so it copies where the code keeps the caller's slice.
- `Requests.AddNodeRequest`: appends to `All` and to `Best` in one step; the code holds the lock twice.
- `Requests.AddNetworkRequest`: one configuration; the bulk request takes the same step per configuration, lower-cased, for names not registered yet.
- `Requests.DeleteNodeRequest`: rebuilds both lists in one step; the code writes `All` without a lock.
- `Limiter.Workers.Advance`: blocking is a precondition here; `CanStep` models who may proceed.
- `GasCache.Cache.ServeGenericGas`: requests follow one another; concurrent misses may both fill the cache. Rejecting methods other than GET is left out.
- `Abi.UintRoundTrip`: malformed and negative numbers, whose `big.Int` value is unspecified.
- `Fees.WeiToGweiIff`: malformed and negative numbers, likewise.
- Races of the Go memory model on slices reached through `Registry.All`.
- Timeouts and protocol branches of the node checks: a probe is up with a ping, or down, fatally or not.
- JSON, HMAC, HTTP, TLS and Tor, metrics, logging and redaction.
- `BuildSupportsInterfaceData`: it pads on the left what the ABI pads on the right.
- The gas endpoints of single networks and the Polygon, Arbitrum and Optimism oracles: copies with other constants.
- `Proxy.Serve`, the per-chain adapters, NFT paging, WebSocket and Swagger: single-branch code or plumbing.
