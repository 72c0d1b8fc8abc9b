# Verified model of distributed_xray

A Dafny model of the four stateful parts of the distributed VPN, with proofs about whole runs of them.

* **Payments** (`IntervalSet.dfy`, `Orders.dfy`, `OrderRuns.dfy`, `Int64.dfy`). Every order is known on the chain
  only by its exact amount. The list of merged intervals behind the allocator is shown to refine a plain set of
  integers, with 64-bit wrap-around written out. Settlement is confluent and replay-safe, and over whole runs a
  transfer can only pay the one order its amount was handed out to.
* **Service registry** (`Registry.dfy`, `Propagation.dfy`, `Convergence.dfy`, `Rejoin.dfy`, `Heartbeat.dfy`).
  Registration, duplicate handling, the expiry sweep, and the patches that keep subscribers' provider caches in
  step although they may overtake each other or arrive after the subscriber has registered again.
* **User sessions** (`Sessions.dfy`, `SessionRuns.dfy`, `Plans.dfy`). The shared session map under every
  interleaving of its lock sections, the monitor tick as one step, plan renewal and plan eviction.
* **Traffic accounting** (`Billing.dfy`, `HostQuota.dfy`). Per-port counters, differences against a cache, credit
  on the web side, and the host's monthly quota.

Code that updates state in place is a class with methods (`IntervalSet`, `OrderService`, `RegistryServer`,
`Providers`, `HeartBeatServer`, `Controller`, `PlanMonitor`, `NodeServer`, `HostMonitor`). Each method is proved
equal to a function on values; the run-level theorems are about those functions. Map iteration is an arbitrary
choice of the next key. Times are integers in nanoseconds.

Hypotheses are predicates in the statements: fresh service ids (`FreshIds`), a subscriber whose required services
do not repeat and do not include itself (`StaysJoined`), order ids not reused while live (`NoLiveReuse`) or never
(`FreshIds` in `OrderRuns`), plausible counters and calendar (`Plausible`), the quota's files and firewall rules
kept from one check to the next (runs of `After`; `Happened` has steps that lose them), ports free when
taken and fair report entries (`Admissible`), no port taken with bytes waiting on it (`TookSettled`).
Callback outcomes, delivery order, lost reports and clock readings are arbitrary inputs.

## Where the code falls short of what it is meant to do

For each of these a lemma shows the code failing on a concrete run or family of runs, and another gives the exact
condition under which the intended property holds.

| what goes wrong | shown by | holds if and only if |
|---|---|---|
| Three orders for the largest 64-bit amount: the search wraps, and the third gets the second's amount | `LargestAmountCollides` | `AmountsIssuedOnce` |
| Adding the largest amount twice stores two intervals for it | `LargestAddedTwice` | `SourceAddsExact` |
| Reusing an order id that is still indexed lets a transfer pay an order that asks for another amount | `ReusedIdIsCrossCredited` | `CreateKeepsCredits`, `CreateKeepsIndex` |
| `registry.add` indexes past the end when the older registration is not the last of its list; the registration is lost | `BrokenOffRun` | `RegistryServer.Add` (`Completes`) |
| A removal patch that overtakes its addition leaves the provider cached for good | `OvertakenRun`, `OvertakenStays` | `ReorderedAgreement` |
| A patch for the old registration that arrives after the cache was cleared leaves a provider too many | `LateAdditionRun` | `RejoinAgreement` |
| The sweep removes by URL, so a service that re-registered after the snapshot is removed although fresh | `LateSweepHitsNewcomer` | `OldSnapshotSweep`, `SweepExpelsByUrl`, `LostExactlyIfUrlCondemned` |
| The sweep judges by an old copy of the heartbeats, so a service that beats on time is removed | `OldBeatCopyExpels` | `LostExactlyIfUrlCondemned` |
| Write-back from an old copy undoes an eviction | `OldCopyRuns` | `EvictionIsUndone`, `WriteBackForgets` |
| Write-back from an old copy loses a new connection | `OldCopyRuns` | `NewEntryIsLost`, `NewConnectionIsLost` |
| Write-back from an old copy forgets a heartbeat, so a client that beats on time is timed out | `ForgottenBeatRun` | `BeatIsForgotten`, `WriteBackForgets` |
| Heartbeats refresh only the first connection to a service | `StarvingRun` | `SecondConnectionStarves` |
| A limit of -1 is documented as unlimited (web/db/models.go:23) and honoured by Connect, but the plan monitor evicts such users | `UnlimitedIsEvicted` | `EvictionMatchesAdmission` |
| The plan monitor sends its disconnects to a URL without the path, where no node takes them | `EvictionMissesTheNode` | never, whatever the tick does |
| A reused port is billed against the previous user's cached total | `ReusedPortUndercredits` | `NeverOverbilled` (`TookClean`) |
| A report from an old copy of the connections bills the wrong user | `StaleReportMiscredits` | `FairExactly` |
| Bytes counted on a port after its user left are billed to the next one | `LateRelayOverbills` | `StayBilledExactly`; over whole runs `NeverOverbilled` (`TookSettled`) |
| The monthly reset stores 0 instead of the counters: from the first one on usage is counted from boot for good, so traffic before a reboot in the cycle is forgotten | `RebootInCycle`, `CountsFromBoot` | `CycleUsageExact` |
| For the same reason a host past its threshold is closed again right after the reset | `ResetReblocks` | `BlockedExactly` |
| Files lost on the reset day bring the month's reset a second time | `LostFilesResetAgain` | `ResetHappensExactly` for the checks since the loss (`RebootStartsAnew`) |
| Before the first reset, counters that went back earlier in the month cancel that month's reset | `RebaseCancelsReset` | `ResetHappensExactly`; after the first reset `LaterResetsHappen` |

## Model

| member | source | states |
|---|---|---|
| `IntervalSets.SearchStart` | payment/order/interval_set.go:21-23 | the binary search of sort.Search returns the boundary between intervals starting at or before x and those starting after it |
| `IntervalSets.InsertInterval` | payment/order/interval_set.go:68-76 | binary search, extend, shift and write do what insertion by start from the left does |
| `IntervalSets.IntervalSet.Add` | payment/order/interval_set.go:20-51 | all four merge cases, with 64-bit wrap-around: starts stay sorted on any such list; from the normal form the represented set grows by exactly x, the normal form is kept if and only if the left neighbour's end+1 does not wrap, and then the list is the one of the left-to-right reference `AddTo` |
| `IntervalSets.MergedCorrect` | payment/order/interval_set.go:26-50 | the four branches, taken at the searched position, agree with the reference wherever nothing wraps |
| `IntervalSets.IntervalSet.NextMissing` | payment/order/interval_set.go:54-66 | returns the least unused 64-bit amount from x on, if and only if there is one |
| `IntervalSets.CanonicalUnique` | payment/order/interval_set.go:5-12 | two sorted, disjoint, non-adjacent lists with the same elements are identical |
| `IntervalSets.AddToCorrect` | payment/order/interval_set.go:20-51 | the reference adds exactly one element and keeps the normal form |
| `IntervalSets.SourceAddsExact` | payment/order/interval_set.go:20-51 | over any list of additions the source's list stays canonical and equal to the reference if and only if no addition repeats an amount from which everything up to the 64-bit maximum is present |
| `IntervalSets.SourceOrderIrrelevant` | payment/order/interval_set.go:20-51 | under that condition the same elements, in any order and with repeats, give the same list |
| `IntervalSets.LargestAddedTwice` | payment/order/interval_set.go:29-50 | the largest amount added twice is stored twice |
| `IntervalSets.NextFreeCorrect` | payment/order/interval_set.go:54-66 | the least free amount is found exactly when one exists; otherwise the result is the smallest 64-bit integer |
| `IntervalSets.SurchargeBound` | payment/order/interval_set.go:54-66 | pigeonhole: the result exceeds x by at most the number of used amounts, and nothing wraps while x plus that number fits |
| `Orders.OrderService.MapAmountToActualAmount` | payment/order/mapper.go:31-35 | search and add together keep the list canonical for every request |
| `Orders.OrderService.CreateOrder` | payment/order/mapper.go:37-58 | the order as returned and stored: id, amount, callback and time as given, pending, with the least free amount; its amount indexed to its id, every other order and entry and the calls untouched |
| `Orders.OrderService.UpdateOrderStatus` | payment/order/task.go:20-111 | page and transaction loops equal the fold of the transaction step over what was reached; exactly the orders are paid then that were, or that a transfer reached pays for: indexed amount, at most ten minutes old; the poll panics exactly on an undecodable page or a recent transaction without contracts |
| `Orders.OrderService.SettlePage` | payment/order/task.go:59-104 | one page up to a panic: exactly the orders are paid then that were, or that a transfer on it pays for |
| `Orders.OrderService.SettleOne` | payment/order/task.go:60-103 | one transaction: a pending order indexed at the amount of a transfer becomes paid if and only if the block time in whole seconds is at least the clock less ten minutes; another kind of contract changes nothing |
| `Orders.ReachedExactly` | payment/order/task.go:26-110 | a poll works off exactly the transactions with only fetched pages and nothing that panics up to them |
| `Orders.PollPanicsExactly` | payment/order/task.go:52-66 | a poll panics exactly if the first page that stops it is no JSON or holds a panicking transaction |
| `Orders.PaidExactly` | payment/order/task.go:59-86 | after any transactions an order is paid if and only if it was, or some transfer at most ten minutes old has an amount indexed to it; nothing else about it changes |
| `Orders.DueTransfer` | payment/order/task.go:85-103 | a transfer due pays its order, calls its callback, and drops the index entry exactly if there is one and it succeeds |
| `Orders.OrderService.RemoveTimeoutOrders` | payment/order/task.go:113-121 | in any visiting order, exactly the index entries at the actual amounts of orders more than ten minutes old go |
| `Orders.SettlementExact` | payment/order/task.go:59-104 | after any transactions exactly the pending orders hit by an eligible transfer become paid, nothing else about an order changes, deleted entries belong to paid orders, and each newly paid order with a callback is called exactly once |
| `Orders.SettlementConfluent` | payment/order/task.go:59-110 | orders and callbacks made are the same for every permutation, repetition and callback outcome, as long as each transaction is first met at the same time |
| `Orders.PagingIrrelevant` | payment/order/task.go:26-110 | corollary of confluence: on pages that arrive and do not panic, how transactions are cut into pages does not matter |
| `Orders.ReplayIsHarmless` | payment/order/task.go:78-103 | meeting transactions again, now or at any later clock and with any callback outcome, pays nothing more and calls nobody again |
| `Orders.IndexDroppedOnSuccess` | payment/order/task.go:85-103 | read off the step: an index entry is deleted exactly when its order is paid now and the callback it asks for succeeds |
| `OrderRuns.IntervalsTrackIssues` | payment/order/mapper.go:25-35 | in every run the list is canonical and holds exactly the amounts handed out, also after index entries are deleted |
| `OrderRuns.PollContinuesRun` | payment/order/task.go:59-104 | a whole poll is a sequence of the transaction steps these runs are made of |
| `OrderRuns.AmountsIssuedOnce` | payment/order/mapper.go:31-35 | no amount is handed out twice if and only if no request finds everything from it up and the smallest integer taken |
| `OrderRuns.LargestAmountCollides` | payment/order/interval_set.go:62-62 | three requests for the largest amount: the last two get the same one |
| `OrderRuns.SurchargeAtMostOrders` | payment/order/mapper.go:1-2 | over every run the surcharge is at most the number of orders so far, and no arithmetic wraps while amount plus that number fits |
| `OrderRuns.CreditsArePayments` | payment/order/task.go:85-86 | the ledger records a credit for an order exactly when the transaction changes that order |
| `OrderRuns.CreateKeepsIndex` | payment/order/mapper.go:54-55 | a creation keeps index and orders consistent if and only if no other live entry carries its id |
| `OrderRuns.CreateKeepsCredits` | payment/order/mapper.go:54-55 | after a creation every transfer pays an order of exactly its amount if and only if no other live entry carries the new id |
| `OrderRuns.NoCrossCredit` | payment/order/task.go:70-103 | over every interleaving of creation, settlement and timeout a transfer pays an order with exactly that actual amount, the only one the amount was ever handed out to |
| `OrderRuns.TimelyPaymentCounts` | payment/order/task.go:59-103 | over every interleaving with fresh ids and no collision, a transfer of an order's actual amount at most ten minutes old, with no timeout of the order before it, leaves the order paid and its callback called exactly once |
| `OrderRuns.LatePaymentIsLost` | payment/order/task.go:113-121 | with fresh ids an order pending when a timeout finds it more than ten minutes old stays as it is for ever |
| `OrderRuns.ReusedIdIsCrossCredited` | payment/order/mapper.go:54-55 | a reused live id is paid by the wrong amount |
| `OrderRuns.StatusOnlyAdvances` | payment/order/task.go:85-86 | with fresh ids an order is never lost or rewritten and its status only moves from pending to paid |
| `OrderRuns.CallbackAtMostOnce` | payment/order/task.go:85-100 | with fresh ids each order's callback is attempted at most once, and only when paid |
| `OrderRuns.FreshIdsAreNotLive` | payment/order/mapper.go:54-55 | with fresh ids every live index entry points to an existing order with that actual amount |
| `Registry.RegistryServer.Add` | registry/server.go:22-45 | the duplicate scan completes if and only if no registration of that name has the URL before the last position; the state after both outcomes, with distinct URLs kept |
| `Registry.RegistryServer.Remove` | registry/server.go:47-61 | announces and removes the first registration with the URL; found or not |
| `Registry.RegistryServer.IsServiceRegistered` | registry/server.go:268-282 | true exactly if some registration has the id |
| `Registry.RegistryServer.RemoveInactiveServices` | registry/server.go:285-315 | the sweep over two copies, as old as may be, with the clock read for each registration and the names in any order, equals the fold of its removals; over the present registrations, exactly those with a heartbeat at most 20 s old at their reading stay |
| `Registry.SweepExact` | registry/server.go:285-314 | with nothing in between, exactly the registrations whose heartbeat is at most 20 s old when the sweep comes to them stay, in their order |
| `Registry.SweepRemoves` | registry/server.go:304-314 | a sweep of any snapshot is a run of removals |
| `Registry.RetryCompletes` | registry/server.go:24-37 | after a broken-off scan a further registration of that URL completes and is listed |
| `Registry.BrokenOffRun` | registry/server.go:24-35 | three registrations after which only the second is left |
| `Registry.OldSnapshotSweep` | registry/server.go:304-314 | an old snapshot swept over whatever is registered by then: a registration survives if and only if none of its name and URL in the snapshot was stale when the sweep came to it |
| `Convergence.RunsAreSound` | registry/server.go:22-61 | every run with fresh ids, completed and broken-off registrations included, keeps distinct URLs per name, lists under their own name and no id twice |
| `Convergence.SweepContinuesRun` | registry/server.go:304-314 | the expiry sweep is a sequence of the removal steps these runs are made of |
| `Propagation.Providers.Update` | registry/client.go:157-181 | additions then removals by id, as one fold over the patch |
| `Propagation.Survivors` | registry/client.go:157-181 | after any operations a provider is cached exactly if it was added and not removed afterwards, and then once |
| `Propagation.PatchTakesBack` | registry/client.go:157-181 | a registration both added and removed by one patch is not cached by it |
| `Convergence.SinglePatch` | registry/server.go:63-96 | a change of one registration reaches a subscriber in exactly one patch if it requires that service, else not at all |
| `Convergence.JoinFollows` | registry/server.go:36-44 | a completed registration leaves the newcomer's cache equal to the registry for its required services |
| `Convergence.FifoAgreement` | registry/client.go:157-181 | over every run, with delivery in sending order, the cached lists equal the registry's as sequences |
| `Convergence.ReorderedAgreement` | registry/client.go:157-181 | over every run and every delivery order of all patches, the cached lists equal the registry's as multisets if and only if every addition arrived before its removal |
| `Convergence.OvertakenStays` | registry/client.go:168-180 | a removal worked off before its addition leaves the provider cached |
| `Convergence.OvertakenRun` | registry/server.go:63-96 | a provider comes and goes; its two patches delivered the wrong way round leave it cached |
| `Rejoin.CachedCount` | registry/client.go:157-181 | after any operations, repeated ones included, a provider is cached as often as additions and effective removals count it |
| `Rejoin.MailIsTidy` | registry/server.go:63-120 | in every run no operation is sent to a registration twice, ids belong to one registration, and what was announced as removed is not registered |
| `Rejoin.RejoinAgreement` | registry/client.go:86-95 | after re-registration with a cleared cache, and any old patches mixed in, cache and registry agree as multisets if and only if additions arrive before their removals and every late addition is taken back by a late removal |
| `Rejoin.LateAdditionRun` | registry/client.go:86-95 | a late addition for the old registration breaks the agreement |
| `Heartbeat.HeartBeatServer.HandleCommonLogic` | registry/heartbeat/server.go:39-64 | status by case; only a registered service's entry is written |
| `Heartbeat.SweepJudgesByHeartbeat` | registry/server.go:223-231 | in every interleaving each registration in the sweep's snapshot has an entry in the later heartbeat snapshot, and is never stale within 20 s of its registration |
| `Heartbeat.ServerIsRegistryRun` | registry/server.go:200-314 | in every interleaving the registry goes through one of the runs its subscribers are shown to follow |
| `Heartbeat.SweepExpelsByUrl` | registry/server.go:304-314 | over every interleaving a registration nobody deregisters or replaces survives if and only if the sweep expels none of its name and URL |
| `Heartbeat.LostExactlyIfUrlCondemned` | registry/server.go:285-314 | removals made up to a given time can lose a registration if and only if the snapshots hold one of its name and URL whose copied heartbeat is stale at that time |
| `Heartbeat.LateSweepHitsNewcomer` | registry/server.go:285-314 | a possible run in which a service re-registers after the snapshots and is removed although fresh |
| `Heartbeat.OldBeatCopyExpels` | registry/server.go:298-314 | a possible run in which a service with heartbeats at most 20 s apart is removed, because the copy of the heartbeats is old |
| `Sessions.Controller.Connect` | web/controllers/controllers.go:379-394 | admission at two connections drops the oldest; nobody else is affected |
| `Sessions.Controller.HeartbeatFromClient` | web/controllers/controllers.go:425-461 | refreshes the first connection to the service and nothing else; status by case |
| `Sessions.Controller.Prune` | web/controllers/clientHeartbeatMonitor.go:57-81 | in any user order, exactly the connections stay whose service id and node address are registered together, and users without any go |
| `Sessions.Controller.MonitorTick` | web/controllers/clientHeartbeatMonitor.go:57-120 | a tick as one step: exactly the connections with a registered node and a heartbeat at most 30 s old stay, and each user is in the batch for a node's disconnect URL once per connection there with an older heartbeat |
| `Sessions.TickConserves` | web/controllers/clientHeartbeatMonitor.go:57-120 | every connection is exactly one of pruned, timed out, or surviving with its node up and a recent heartbeat |
| `Sessions.RecentUserIsInNoBatch` | web/controllers/clientHeartbeatMonitor.go:101-106 | a user all of whose connections are recent is in no batch |
| `Sessions.ReRegisteredNodeIsPruned` | web/controllers/clientHeartbeatMonitor.go:57-70 | connections to a node that registered again under a new id are pruned |
| `SessionRuns.SessionsBoundedAndGranted` | web/controllers/clientHeartbeatMonitor.go:86-120 | under every interleaving with write-back from an old copy, a user in the map has one or two connections, each granted to that user |
| `SessionRuns.UninterruptedTick` | web/controllers/clientHeartbeatMonitor.go:57-120 | prune, copy and write-backs in any user order, with nothing in between, amount to one whole tick |
| `SessionRuns.EventIsSteps` | web/controllers/clientHeartbeatMonitor.go:57-120 | every whole event is a run of lock sections with nothing in between |
| `SessionRuns.WriteBackForgets` | web/controllers/clientHeartbeatMonitor.go:98-119 | whatever happened since the copy, a write-back leaves exactly the copied connections that are recent, and the user if there is one |
| `SessionRuns.EvictionIsUndone` | web/controllers/clientHeartbeatMonitor.go:86-119 | an eviction during a tick is undone if and only if the user was still to be written back, has been, and some copied connection is recent |
| `SessionRuns.NewEntryIsLost` | web/controllers/clientHeartbeatMonitor.go:86-119 | an entry made since the copy, by a connection, a reconnection or a heartbeat, survives the tick if and only if its user was not still to be written back, or has not been yet |
| `SessionRuns.NewConnectionIsLost` | web/controllers/clientHeartbeatMonitor.go:86-119 | the same, with heartbeats going on, for a connection of which the copy holds no earlier entry |
| `SessionRuns.BeatIsForgotten` | web/controllers/clientHeartbeatMonitor.go:98-119 | a heartbeat in the middle of a tick counts after it if and only if its user is not written back in the rest of it |
| `SessionRuns.OldCopyRuns` | web/controllers/clientHeartbeatMonitor.go:110-119 | two runs: evicted yet present, admitted yet gone |
| `SessionRuns.ForgottenBeatRun` | web/controllers/clientHeartbeatMonitor.go:86-119 | heartbeats at most 30 s apart and the node up, and the second tick still drops the connection |
| `SessionRuns.BeatingConnectionSurvives` | web/controllers/controllers.go:446-452 | a user's first connection to a service, node registered, not evicted, refreshed within 30 s of every tick, survives every run |
| `SessionRuns.PunctualClientSurvives` | web/controllers/clientHeartbeatMonitor.go:101-102 | over every time-ordered run of whole ticks, heartbeats at most 30 s apart up to the present keep that connection |
| `SessionRuns.GentleClientSurvives` | web/controllers/clientHeartbeatMonitor.go:57-120 | under every interleaving of lock sections, if no step of the user falls between a copy and the user's write-back, every copy comes within 30 s of the last heartbeat and the node is up at every prune, the first connection to the service survives with its last heartbeat |
| `SessionRuns.SecondConnectionStarves` | web/controllers/controllers.go:446-452 | over every run in which an earlier connection to the same service stays ahead, the second one keeps its first heartbeat time and is there if and only if every tick found its node up and that time at most 30 s old |
| `SessionRuns.StarvingRun` | web/controllers/controllers.go:446-452 | the client beats, and the tick still drops the second connection |
| `Plans.PlanMonitor.Tick` | web/controllers/PlanMonitor.go:20-64 | both phases with their database errors: exactly the users with a passed renewal date and a running plan renewed, up to the failing save; then exactly the sessions of users with the plan over or the traffic used up dropped, each such user in the batch at the node's bare URL once per connection there; after an error the sessions are untouched and the monitor stops |
| `Plans.EvictionMissesTheNode` | web/controllers/PlanMonitor.go:59-60 | no eviction batch goes to a URL at which a node takes disconnects |
| `Plans.RenewedIsNotEvicted` | web/controllers/PlanMonitor.go:27-42 | a user renewed in a tick is evicted by it if and only if the limit is not positive |
| `Plans.EvictionMatchesAdmission` | web/controllers/PlanMonitor.go:42-42 | eviction is the negation of Connect's admission if and only if the user is not on an unlimited running plan |
| `Plans.UnlimitedIsEvicted` | web/controllers/PlanMonitor.go:42-42 | an unlimited user with a running plan is admitted and evicted at the same time |
| `Plans.RenewalHasNoDrift` | web/controllers/PlanMonitor.go:28-31 | over any ticks the renewal date is the initial one plus resets times cycle |
| `Plans.LagShrinks` | web/controllers/PlanMonitor.go:22-31 | over any ticks at most a gap below the cycle apart, a lag shrinks with every tick by cycle less gap until it is gone, and stays gone |
| `Plans.RenewalCatchesUp` | web/controllers/PlanMonitor.go:22-31 | however far behind, renewal has caught up after enough ticks |
| `Plans.OneResetPerBoundary` | web/controllers/PlanMonitor.go:22-31 | once caught up, exactly one reset per cycle boundary passed |
| `Billing.NodeServer.HandleConnect` | node/server.go:156-234 | an existing connection is returned, else the probed port is assigned; no two users share a port and no counter changes |
| `Billing.NodeServer.HandleDisconnect` | node/server.go:263-287 | exactly the listed users' connections and their ports' counters go; an unknown user reads as port 0 |
| `Billing.NodeServer.TrafficReport` | node/server.go:297-332 | the report loop over a copy of the connections, as old as may be, in some order, each entry once |
| `Billing.ReportExact` | node/server.go:308-332 | whatever the order, a report holds exactly the copied users whose port has counters, with the bytes since the port's last report |
| `Billing.NothingPending` | node/server.go:325-326 | after a report nothing is pending on a reported port |
| `Billing.ReportContinuesRun` | node/server.go:308-332 | a whole report from any copy is an admissible continuation of a run if its entries are fair, and does to the node what the loop does |
| `Billing.AddTraffic` | web/controllers/controllers.go:477-484 | every known total grows by the sum of its entries; for a report, by what the user's port has to report |
| `Billing.ReportSums` | node/server.go:308-332 | the entries of a report for a user add up to what the user's port has to report |
| `Billing.EntriesCredit` | web/controllers/controllers.go:477-484 | in the books a delivered report credits every copied user with what the port has to report |
| `Billing.AddReport` | web/controllers/controllers.go:477-484 | a delivered report moves the web side's totals exactly as its entries move the books |
| `Billing.DifferencesTelescope` | node/server.go:315-326 | over every run all differences computed for a port add up to its cached total, across port reuse |
| `Billing.BytesAreConserved` | node/server.go:271-332 | over every run bytes relayed for a user are credited, undelivered, pending, lost at a disconnect, or offset by what the port carried over, and nothing else |
| `Billing.FairExactly` | node/server.go:297-332 | a report entry keeps every user balanced if and only if it names the port's current user or the port has nothing to report |
| `Billing.NeverOverbilled` | node/server.go:308-332 | over every run a user who never took a port with bytes waiting is never credited more than relayed, port reuse and late bytes included, and is short by exactly what is pending, lost and undelivered if and only if every port taken matched the cache |
| `Billing.InheritedExact` | node/server.go:315-323 | what such a user takes over with ports is never negative, and 0 if and only if every port taken matched the cache |
| `Billing.OwnedRelaysSettle` | node/proxy.go:63-68 | if bytes only pass on connected users' ports, no port is ever taken with bytes waiting |
| `Billing.ReusedPortUndercredits` | node/server.go:315-323 | a reused port's next user is short by the whole cached total |
| `Billing.StaleReportMiscredits` | node/server.go:297-323 | a report from an old copy bills the port's new user to the old one |
| `Billing.StayBilledExactly` | node/server.go:308-332 | over a whole stay on a port the differences billed are the bytes relayed plus what was waiting when it was taken, less what is pending; once all is reported they exceed the bytes relayed if and only if something was waiting |
| `Billing.LateRelayOverbills` | node/proxy.go:63-68 | bytes counted on a port after its user left are billed to the next user |
| `HostQuota.HostMonitor.CheckTraffic` | node/traffic_check.go:94-136 | files and firewall written out: on the reset day of another month than the stored one the firewall opens and 0 and the month are stored; otherwise only a missing or overtaken baseline is rewritten, and the firewall closes at 95% in whole GiB; a limit of 0 panics exactly when no reset is due, after the files were written |
| `HostQuota.BlocksExactlyFromThreshold` | node/traffic_check.go:127-135 | blocking happens if and only if used bytes reach the least whole number of GiB that is 95% of the limit, so never earlier and less than 1 GiB later |
| `HostQuota.OneResetPerMonth` | node/traffic_check.go:103-111 | over every run with a forward calendar, at most one reset per month |
| `HostQuota.ResetsOnResetDay` | node/traffic_check.go:103-111 | every month that was reset had a reading on the reset day |
| `HostQuota.OtherDaysLeaveTheCycle` | node/traffic_check.go:105-121 | on any other day a closed firewall stays closed and only a missing or overtaken baseline rewrites the files |
| `HostQuota.EvaluationIsSafe` | node/traffic_check.go:118-129 | over every run usage is never negative when evaluated and no 64-bit operation on it overflows |
| `HostQuota.CountsFromBoot` | node/traffic_check.go:103-127 | after the first reset of every plausible run each check takes the traffic since boot for the cycle's usage and notices no reboot |
| `HostQuota.CycleUsageExact` | node/traffic_check.go:103-127 | after the first reset a check measures the traffic since the last reset, reboots in between included, if and only if the counters' value at that reset equals what they have lost since by going back |
| `HostQuota.RebootInCycle` | node/traffic_check.go:103-127 | a reset at 0, 100 bytes, a reboot and 10 bytes: 110 since the reset, 10 measured |
| `HostQuota.BlockedExactly` | node/traffic_check.go:103-135 | after the first reset of every plausible run the firewall is closed if and only if some check since the last reset read the threshold on the counters |
| `HostQuota.ResetReblocks` | node/traffic_check.go:108-135 | a check right after a reset closes the firewall if and only if traffic since boot has reached the threshold |
| `HostQuota.ResetHappensExactly` | node/traffic_check.go:103-121 | over every plausible run, on the reset day the reset happens if and only if no earlier reading of that month reset or took a new baseline |
| `HostQuota.LaterResetsHappen` | node/traffic_check.go:103-111 | after the first reset one happens on the reset day of every month that had none yet |
| `HostQuota.RebaseCancelsReset` | node/traffic_check.go:103-121 | before the first reset: a baseline, a reboot early in the month, and no reset on that month's reset day |
| `HostQuota.RebootStartsAnew` | node/traffic_check.go:15-18 | checks alone are the runs above, and after files and firewall rules are lost together the host behaves as from the start |
| `HostQuota.RulesLostReopens` | node/traffic_check.go:103-135 | lost firewall rules leave the files as they are, and after the first reset the firewall is closed if and only if some later check since the last reset read the threshold |
| `HostQuota.LostFilesResetAgain` | node/traffic_check.go:103-111 | lost files on the reset day bring a second reset |

## Left out

- HTTP, JSON, gin and gorm plumbing, environment variables and logging; requests are step inputs, the user table is a sequence or map.
- Login, tokens and middleware; the Xray API, process launching and iptables beyond one firewall flag.
- The token-bucket limiter; relaying is the step that lets counters grow.
- Termination of the page loop; pages are a finite list.
- Interleavings inside one `registry.add` or `remove`, and lists with repeated URLs that they could produce; only the completion condition of `RegistryServer.Add` is stated without distinct URLs.
- Patches that are never delivered.
- `HostQuota.HostMonitor.CheckTraffic`: does not model failing file writes or reading the interface counters, whose failure ends the process.
- Overflow of byte counters and user totals; they are unbounded integers.
- Fields without influence on behaviour: wallet address, payment link, descriptions, IPv6 addresses.
