# Verified model of synthetics-operator

A Dafny 4.11 model of the parts of synthetics-operator that have to stay right on their own: the
dependency graph and its two depth-capped walks, the spec stream over a fire-and-forget bus, the
in-memory indexes built from it, heartbeat state and its durable copy, token provisioning, and the
small languages and schedules around them. `dafny verify dfyconfig.toml` checks all of it.

What the modules hold:

- `DependencyGraph`, `Suppression`, `FinishOrder`: `spec.depends` as a graph, and the scrape-time
  walk that names an unhealthy dependency, characterised on every graph. Walk properties are proved
  by depth-first induction over the marked nodes, the nodes on the stack and the settled ones.
- `Admission`, `AdmittedGraphs`, `WalkAgreement`: the admission walk that rejects cycles, exactly
  which graphs runs of admissions can build, and the two walks compared.
- `MetricsStore`, `StoreStream`, `Lifecycle`: the store as a class, the consumer as a fold of
  messages over it, and heartbeat state.
- `PingWriter`, `Reseed`: the throttled status writer, what a reseed after a restart can get wrong, and
  the same from the CR through the published spec to the stores of two consumers.
- `TokenIndex`, `Handshake`, `ColdStart`, `MetricsColdStart`: the receiver's index, the start-up
  handshake as interleaved steps, and the handshake together with the index and with the store.
- `TokenRace`: racing reconciles against the token Secret.
- `Scheduler`, `Cron`, `Modular`: phase arithmetic, stop channels, cron schedules.
- `Text`, `Names`, `Assertions`, `PingPath`: string helpers, DNS names, the assertion grammar and ping
  URLs.

How the source is read:

- Objects the source mutates (the store, the consumer, the receiver, the ping writer, the scheduler,
  the visited map) are classes. Each method is tied to a function of the old state, and the theorems
  are about runs of those functions. Protocols between processes are step relations, and the
  theorems quantify over every interleaving.
- Admissions are serial, reads of the cluster fail only by not finding a CR, and one graph is one
  namespace. Cluster CRs have one of the six kinds, so an unknown kind is never found.
- The bus hands a message to whoever is subscribed when it reaches the server and otherwise drops
  it. A controller whose request subscription failed carries on, as `Start` does.
- `CreateOrUpdate` reads (possibly stale), mutates, and then creates if absent, or updates if the
  version it read is still current, or does nothing if the object is unchanged. A write may be
  applied and still be reported as failed.
- Float seconds are reals, and instants are whole Unix seconds where the source truncates them.
  `int(d.Minutes())` is exact truncation; float rounding only differs for durations far above the
  24h limit, which are rejected either way.
- The FNV hash, `strconv.ParseFloat` and the rendering of ping URLs are parameters.

Where the code and its comments differ, the code is modelled:

- The store's comment says no message is ever seen as a transition to `missed`. A ping for a
  pending Heartbeat that is already past the deadline it sets does fire one (`PingCallback`).
- The design says the full transitive graph is walked and the label names the root cause. Both have
  their exact conditions in `FinishOrder`, on every graph. The cap is not a distance: a node first
  met at the bottom of a long chain is marked there without its dependencies and skipped later, so a
  failure two edges away can go unreported (`ShortcutHidesFailure`). Cycles hide root causes too
  (`CycleHidesRootCause`, `RootCauseIffOffCycles`).
- The admission cap does not prevent this: every acyclic, well-formed graph can be built by admitted
  writes (`ReachableIff`), long chains and shortcuts included. Exactness is only certain right after
  the owner itself was admitted (`JustAdmittedIsExact`).
- Admission refuses an unbranched chain of 16 existing edges that suppression could still see
  (`AdmissionCapIsExact` against `CapIsExact`).

## Model

| member | source | states |
|---|---|---|
| Suppression.SuppressionSound | internal/metrics/store.go:764-791 | on every graph, cyclic ones included, a reported dependency is failing, is not the origin and is at most 16 edges away; no CR is expanded twice |
| FinishOrder.ReportIsFirstFinished | internal/metrics/store.go:764-791 | on every graph, for every set of failures, the report is the first failing CR of one finish order that depends on the graph alone |
| FinishOrder.ReportedIff | internal/metrics/store.go:764-791 | on every graph a dependency is reported if and only if some CR of the finish order fails |
| FinishOrder.ExactIffComplete | internal/metrics/store.go:764-791 | on every graph, past the cap too, reports are exact for every set of failures if and only if the finish order has every transitive dependency of the origin |
| FinishOrder.RootCauseIffBottomUp | internal/metrics/store.go:764-791 | on every graph, past the cap too, nothing ever fails below the CR that is named if and only if the finish order has each CR after everything below it |
| FinishOrder.WithinCapIsComplete | internal/metrics/store.go:762-773 | if no simple chain from the origin exceeds 16 edges, the finish order has every transitive dependency |
| FinishOrder.ShortcutHidesFailure | internal/metrics/store.go:771-785 | the cap is not a distance: with a shortcut to the bottom of a long chain, a failure two edges from the origin goes unreported |
| Suppression.SuppressionExact | internal/metrics/store.go:764-791 | if no simple chain from the origin exceeds 16 edges: reported exactly when a transitive dependency other than the origin fails, and no failing CR lies below it except by way of a cycle through itself |
| Suppression.RootCauseIffOffCycles | internal/metrics/store.go:756-791 | within the cap, the reported CR has no failing transitive dependency, for every possible set of failures, if and only if no transitive dependency of the origin other than itself lies on a cycle |
| Suppression.RootCauseWhenOffCycles | internal/metrics/store.go:756-791 | within the cap, if no transitive dependency of the origin lies on a cycle, the reported CR is failing and none of its transitive dependencies is |
| Suppression.WalkCutHasChain | internal/metrics/store.go:771-773 | the cap drops an unmarked dependency only at the end of a simple chain of 17 edges |
| Suppression.WalkSettles | internal/metrics/store.go:776-789 | a walk that finds nothing and is not cut leaves every given dependency marked and every finished node healthy with all its dependencies marked |
| Suppression.WalkRootCause | internal/metrics/store.go:774-788 | at every depth of the recursion, when not cut, nothing fails below what is reported except by way of a cycle through itself |
| Suppression.WalkMarksOnce | internal/metrics/store.go:779-783 | the marking order never repeats a node |
| Suppression.CycleHidesRootCause | internal/metrics/store.go:776-789 | a concrete cyclic graph on which the reported CR has a failing dependency with no dependencies of its own |
| Suppression.CapIsExact | internal/metrics/store.go:762-773 | a lone failure at the end of an unbranched chain is reported if and only if it is at most 16 edges away |
| Admission.WalkForCycle | api/v1alpha1/depends.go:135-159 | the mutating walk computes the verdict function and leaves exactly its marks |
| Admission.AcceptedIsUnreachable | api/v1alpha1/depends.go:126-159 | acceptance implies the owner cannot be reached from any new dependency |
| Admission.CycleCheckExact | api/v1alpha1/depends.go:126-159 | a cycle verdict is always real; unless a 16-edge simple chain ends at an existing CR, the walk accepts if and only if no dependency leads back |
| Admission.TooDeepHasChain | api/v1alpha1/depends.go:136-138 | a depth rejection exhibits a 16-edge simple chain from the owner to an existing CR |
| Admission.AdmissionCapIsExact | api/v1alpha1/depends.go:135-159 | an unbranched chain of existing CRs is accepted if and only if it has fewer than 16 edges |
| Admission.ValidateDepends | api/v1alpha1/depends.go:49-96 | no error if and only if the list is empty, or every kind is known, every name valid, no entry is the owner, all are distinct and stored, and the cycle walk accepts; which error each bad entry gets, in order; a walk error stands alone |
| Admission.AdmittedDepsExist | api/v1alpha1/depends.go:83-86 | over every run, a write takes effect only if every one of its dependencies is stored at that moment |
| Names.SubdomainIff | api/v1alpha1/depends.go:67-70 | the name check accepts exactly dot-separated labels of lower-case letters, digits and inner hyphens, at most 253 characters in all |
| Admission.AlwaysAcyclic | api/v1alpha1/depends.go:41-159 | after every run of writes and deletes from the empty cluster the stored graph is acyclic, edges to missing CRs included |
| DependencyGraph.WriteKeepsAcyclic | api/v1alpha1/depends.go:126-133 | writing dependencies that do not reach the owner keeps the graph acyclic |
| WalkAgreement.WalksAgree | api/v1alpha1/depends.go:135-159 | where admission accepts, the suppression walk over the same graph is never cut and marks the same CRs in the same order |
| WalkAgreement.JustAdmittedIsExact | internal/metrics/store.go:764-791 | over every run, right after a write is admitted suppression of its owner is exact and names a root cause |
| AdmittedGraphs.ReachableIff | api/v1alpha1/depends.go:41-159 | over every run of writes and deletes from the empty cluster, a graph can come to be stored if and only if it is acyclic and its lists have known kinds, valid names and no repeats; the depth cap excludes none |
| AdmittedGraphs.AlwaysWellFormed | api/v1alpha1/depends.go:49-96 | every stored list has known kinds, valid names and no repeats |
| AdmittedGraphs.LeavesAreAdmitted | api/v1alpha1/depends.go:49-159 | a well-formed list of existing CRs without dependencies of their own is admitted |
| AdmittedGraphs.AdmittedChainFailsOpen | api/v1alpha1/depends.go:35-39 | through every list of distinct valid references an admitted run builds a chain; the failure of its end is reported at its head if and only if the chain has at most 16 edges |
| AdmittedGraphs.AdmittedShortcutFailsOpen | api/v1alpha1/depends.go:35-39 | through any 18 such references an admitted run builds a graph on which a failure two edges from the head goes unreported |
| MetricsStore.Store.FindUnhealthyDep | internal/metrics/store.go:764-768 | the method over the store's maps computes the specified walk from the origin |
| MetricsStore.Store.WalkDeps | internal/metrics/store.go:770-791 | the recursive, marking walk computes the specified result and marking order |
| MetricsStore.Store.IsFailingLocked | internal/metrics/store.go:793-808 | the method over the store's maps computes the per-kind failing test that `StoreStream.FailingIff` reads off the messages |
| MetricsStore.ScrapeView | internal/metrics/store.go:770-808 | the graph and failing set of a namespace agree with the store's keyed lookups |
| MetricsStore.Store.Upsert | internal/metrics/store.go:641-655 | new store: state replaced, callback exactly on a changed result |
| MetricsStore.Store.UpsertTest | internal/metrics/store.go:660-674 | the same for tests |
| MetricsStore.Store.Delete | internal/metrics/store.go:678-685 | removes one identity from the three state maps and nothing else |
| MetricsStore.Store.SetDepends | internal/metrics/store.go:690-701 | sets the list, or clears the entry when empty |
| MetricsStore.Store.ClearDepends | internal/metrics/store.go:705-709 | removes the list only |
| MetricsStore.Store.SetMetricLabels | internal/metrics/store.go:715-727 | sets the labels, or clears the entry when empty |
| MetricsStore.Store.ClearMetricLabels | internal/metrics/store.go:730-734 | removes the labels only |
| MetricsStore.Store.SetHeartbeatSpec | internal/metrics/heartbeat.go:40-50 | applies the contract, seeding only where no state exists |
| MetricsStore.Store.RecordHeartbeatPing | internal/metrics/heartbeat.go:56-85 | ingests the ping, creating state if needed, with the callback it fires |
| StoreStream.Consumer.OnSpec | internal/metricsconsumer/consumer.go:75-97 | a spec or tombstone has its whole effect on the store and no other |
| StoreStream.Consumer.OnHeartbeatPing | internal/metricsconsumer/consumer.go:99-102 | a ping has its whole effect on the store and no other |
| StoreStream.Consumer.OnProbeResult | internal/metricsconsumer/consumer.go:104-142 | a probe result has its whole effect on the store and no other |
| StoreStream.Consumer.OnTestResult | internal/metricsconsumer/consumer.go:144-152 | a test result has its whole effect on the store and no other |
| StoreStream.StoreIsHistory | internal/metricsconsumer/consumer.go:75-152 | for every message history and CR: results since the last tombstone, lists and labels of the current spec, heartbeat state equal to the lifecycle run of its own events; a tombstone leaves no trace |
| StoreStream.FailingIff | internal/metrics/store.go:793-808 | for every message history: a probe fails if and only if its latest result since the last tombstone is not "ok", a test if and only if its latest result is no success, a Heartbeat if and only if its events leave it unsuspended and unheard, overdue or failed by the last word, and any other kind never |
| StoreStream.ProbeOnRecord | internal/metricsconsumer/consumer.go:104-142 | the probe result on record is that of the latest probe message with no tombstone after it, and there is none without one |
| StoreStream.TestOnRecord | internal/metricsconsumer/consumer.go:144-152 | the same for tests, a success recorded as "ok" and a failure as "test_failed" |
| StoreStream.HeartbeatFailingIff | internal/metrics/store.go:801-804 | a Heartbeat fails if and only if its own events since the last tombstone say so |
| StoreStream.ContractOnRecord | internal/metricsconsumer/consumer.go:86-96 | the contract on record is, in milliseconds, that of the latest contract message with no tombstone after it |
| StoreStream.MissedInMilliseconds | internal/heartbeat/lifecycle/lifecycle.go:72-93 | in whole milliseconds of that message: missed if and only if heard of and the last ping is older than period plus grace, or twice the period without a grace |
| StoreStream.HeartbeatOrderInsensitive | internal/metrics/heartbeat.go:40-85 | two histories whose events for a Heartbeat differ in order, duplication and re-delivered specs leave the same state in the store, if the pings received at the latest second agree |
| StoreStream.RebroadcastIsInvisible | internal/metricsconsumer/consumer.go:75-97 | inserting any re-deliveries of current specs, with any replayed status, anywhere in any history leaves the whole store identical |
| StoreStream.RedeliveryIsNoOp | internal/metrics/store.go:690-727 | a spec the store already reflects changes nothing, whatever status it replays |
| StoreStream.ProbeTransitionsAreHistory | internal/metrics/store.go:641-655 | for every run, callbacks for a probe are, stretch by stretch between its tombstones, exactly the steps of its adjacent-duplicate-free history from never run |
| StoreStream.TestTransitionsAreHistory | internal/metrics/store.go:660-674 | the same for tests |
| StoreStream.SquashKeepsEnds | internal/metrics/store.go:648-654 | that history keeps its ends and has no adjacent duplicates |
| StoreStream.PingCallback | internal/metrics/heartbeat.go:67-84 | which callback each ping fires, with its wire strings; `missed` only from pending with a ping already past its deadline |
| StoreStream.ReportedDepIsOnRecord | internal/metrics/store.go:793-808 | a named dependency has a recorded bad result, or is an unsuspended Heartbeat that is not ok |
| Lifecycle.RunSummary | internal/heartbeat/lifecycle/lifecycle.go:35-54 | for every run, whether it opens with a spec or a ping: last ping is the maximum of the opening seed (none if a ping came first) and all pings, the outcome is that ping's or the seed's, the contract is the last spec's |
| Lifecycle.OrderInsensitiveIff | internal/heartbeat/lifecycle/lifecycle.go:35-54 | every reordering of a run, with the same opening seed and last contract, ends in the same state if and only if all pings received at the latest second, at or after the seed, are equal; the same for arrangements that repeat deliveries |
| Lifecycle.OrderInsensitive | internal/heartbeat/lifecycle/lifecycle.go:35-54 | if the latest pings agree, two arrangements of the same deliveries end in the same state |
| Lifecycle.SameSecondOrderMatters | internal/heartbeat/lifecycle/lifecycle.go:47-54 | two different pings of the latest second make some reordering end in another state |
| Lifecycle.DeadlineNeverMovesBack | internal/heartbeat/lifecycle/lifecycle.go:46-79 | no sequence of pings moves the deadline back |
| Lifecycle.ClassificationChangesOnce | internal/heartbeat/lifecycle/lifecycle.go:72-93 | without events the classification changes at most once, to missed, past the deadline |
| Lifecycle.MissedIff | internal/heartbeat/lifecycle/lifecycle.go:72-93 | for every run, missed if and only if something was heard and the seed and every ping are older than period plus grace of the last spec, a missing grace counting as one period |
| Lifecycle.ClassificationIff | internal/heartbeat/lifecycle/lifecycle.go:81-93 | for every run and instant, all four classes read off the events: pending if nothing was heard, missed if all of it is overdue, else what the last word said |
| Lifecycle.LastWordDecides | internal/heartbeat/lifecycle/lifecycle.go:35-54 | for every run, instant, outcome and exit code are those of the one ping no earlier than any before it and later than any after it, or the seed's |
| PingWriter.HeartbeatPingWriter.OnPing | controllers/heartbeat_pings.go:64-97 | throttled write, with the throttle rolled back when the patch fails |
| PingWriter.HeartbeatPingWriter.ShouldWrite | controllers/heartbeat_pings.go:109-121 | the throttle decision and its record, which `PingWriter.WrittenIff` states in numbers over every run |
| PingWriter.HeartbeatPingWriter.Forget | controllers/heartbeat_pings.go:123-127 | forgets one Heartbeat's last write |
| PingWriter.StatusTracksPings | controllers/heartbeat_pings.go:64-121 | after every ping, in any delivery order and interleaving, the status has that ping's outcome and the time of a delivered ping, and the last ping is less than a write interval past it |
| PingWriter.WrittenIff | controllers/heartbeat_pings.go:64-121 | after every run, in numbers: a ping is written, in whole seconds with its outcome, if it is the first seen, changes the outcome or comes at least the interval (override, else a quarter period, else 15s) after the last write; otherwise status and throttle stay as they are |
| PingWriter.WritesAreSpaced | internal/heartbeat/lifecycle/lifecycle.go:56-70 | over every run, two successive writes of one Heartbeat with the same outcome are at least that interval apart |
| PingWriter.FailuresLeaveStatus | controllers/heartbeat_pings.go:67-72 | an unreadable or missing CR changes nothing, a failed patch changes no status |
| PingWriter.ReseedIsNeverLater | controllers/specs.go:115-124 | in any delivery order the reseeded deadline is never later than the live one |
| PingWriter.ReseedOkIff | controllers/specs.go:115-124 | in any delivery order, a reseeded ok is a live ok at every instant if and only if the last delivered ping failed or the newest one did not |
| PingWriter.ReseedIsSafe | controllers/specs.go:115-124 | if the last delivered ping is the newest, the reseeded deadline is earlier by less than a quarter period plus a second, and a reseeded ok is a live ok |
| PingWriter.InOrderEndsWithNewest | controllers/heartbeat_pings.go:64-97 | nondecreasing delivery ends with the newest ping |
| PingWriter.LiveTracksPings | internal/heartbeat/lifecycle/lifecycle.go:46-54 | in any delivery order the live store has the newest ping's instant and outcome, or the seed's where every ping is older |
| PingWriter.FailedWriteIsRetried | controllers/heartbeat_pings.go:89-96 | after a failed write the next ping of that Heartbeat is persisted, whatever happens to others in between |
| PingWriter.OutOfOrderReseedHidesFailure | controllers/heartbeat_pings.go:75-87 | a late-delivered older success makes the reseeded state read ok while the live one reads reported failure |
| Reseed.FreshStore | controllers/specs.go:115-135 | a consumer that has just started has the CR's contract, cut to whole milliseconds, and its status's instant and outcome |
| Reseed.RunningStore | internal/metricsconsumer/consumer.go:75-102 | a consumer that got the spec and then the pings has the live state the writer's theorems speak of |
| Reseed.RestartedStoreOkIff | controllers/specs.go:111-135 | from the CR to both stores, in any delivery order: a restarted consumer never says ok where the running one does not, if and only if the last delivered ping failed or the newest one did not |
| TokenIndex.Receiver.OnSpec | internal/heartbeat/receiver.go:146-167 | evict, then install; other kinds change nothing, not even readiness |
| TokenIndex.Receiver.Lookup | internal/heartbeat/receiver.go:178-183 | resolves a token by the index |
| TokenIndex.Receiver.MarkWarm | internal/heartbeat/receiver.go:133-137 | sets readiness only |
| TokenIndex.ResolvedIsCurrent | internal/heartbeat/receiver.go:146-183 | over every spec sequence a resolving token belongs to a Heartbeat whose latest spec is live and carries it |
| TokenIndex.LatestTokenIff | internal/heartbeat/receiver.go:161-166 | a name's latest token is the non-empty token of its last spec, if that is no tombstone |
| TokenIndex.ResolvesIff | internal/heartbeat/receiver.go:146-183 | over every spec sequence, a token resolves to a name if and only if it is that name's latest live token and no later spec of another name carried it or replaced it |
| TokenIndex.UnsharedResolves | internal/heartbeat/receiver.go:146-183 | if no token was ever used by two names, resolving and being the latest token are the same |
| TokenIndex.SharedTokenEvicted | internal/heartbeat/receiver.go:156-166 | a shared token makes the converse fail |
| TokenIndex.OneRoundHealsIff | internal/heartbeat/receiver.go:156-166 | from any index, one round heals if and only if no Heartbeat held the token of one broadcast before it |
| TokenIndex.OneRoundFromEmpty | internal/heartbeat/receiver.go:146-167 | from the empty index one round suffices |
| TokenIndex.TwoRoundsHeal | internal/heartbeat/receiver.go:146-167 | from any index two rounds in any orders make every live token resolve to its owner |
| TokenIndex.SwapNeedsTwoRounds | internal/heartbeat/receiver.go:156-166 | two Heartbeats swapping tokens are not healed by one round |
| ColdStart.ResyncHeartbeats | controllers/spec_resync.go:130-152 | the publish loop broadcasts, in list order, exactly the listed Heartbeats that are not being deleted and whose token resolves, each with its token |
| ColdStart.TwoResyncsHeal | controllers/spec_resync.go:130-152 | two resyncs over the same live Heartbeats heal any index |
| ColdStart.ReceiversResolveEverything | internal/heartbeat/receiver.go:84-131 | in every quiescent state every receiver that has requested resolves every live token to its owner |
| MetricsColdStart.StoreHoldsLiveSpecs | internal/metricsconsumer/consumer.go:75-97 | however specs interleave with pings and results, the store has the list, labels and contract of every live CR and lists for no other |
| MetricsColdStart.ConsumersSuppressAsCluster | internal/metricsconsumer/consumer.go:32-97 | over every interleaving, a quiet metrics consumer that has requested has every live contract and suppresses exactly as the cluster's own graph says |
| Suppression.WalkSeesDeps | internal/metrics/store.go:776-783 | the walk depends on a graph only through its dependency lists |
| Handshake.QuiescentHoldsAll | controllers/spec_resync.go:60-111 | over every interleaving with restarts, once quiet a consumer that requested, or was subscribed when a broadcast began, has received exactly the live specs |
| Handshake.EveryRequestIsAnswered | controllers/spec_resync.go:64-111 | from every reachable state, whichever internal step is taken each time, the steps come to an end, and then every consumer that had requested has received exactly the live specs |
| Handshake.BroadcastReachesSubscribers | controllers/spec_resync.go:97-104 | over every run, listening or not: a consumer subscribed when a first, periodic or requested broadcast began, and not restarted since, has received exactly the live specs once all is quiet |
| Handshake.TickHeals | controllers/spec_resync.go:100-101 | in every reachable quiet state, listening or not, the tick is possible, and whichever steps follow end with every subscriber holding exactly the live specs |
| Handshake.RestartForgets | internal/metricsconsumer/consumer.go:32-59 | after a restart a consumer holds nothing until it receives again |
| Handshake.StepKeepsInv | internal/metricsconsumer/consumer.go:32-59 | every step keeps the invariant that a requester is served, or its request is still alive, or the first broadcast is still to come |
| Handshake.GuaranteedIff | controllers/spec_resync.go:79-95 | for every live set and number of consumers, every quiet requester holds exactly the live specs in all reachable states if and only if the controller listens for requests (or there is no consumer or no spec) |
| Handshake.DeafControllerLosesRequest | controllers/spec_resync.go:84-95 | for every live set and number of consumers, without the request subscription a requester can end up with nothing while all is quiet |
| TokenRace.RacingReconcilesAgree | controllers/heartbeat_controller.go:152-202 | over every interleaving with stale reads at most one token is ever stored, every returned token is it, and the stored URL is its URL |
| TokenRace.SoloReconcile | controllers/heartbeat_controller.go:161-202 | from every state whose Secret is absent or blank, a reconcile that runs alone with fresh reads can go through, and stores and returns the token it minted, with its URL |
| TokenRace.StoredTokenComesBack | controllers/heartbeat_controller.go:163-168 | from every state whose Secret has a token, one fresh read returns it, trimmed, and writes nothing |
| TokenRace.FirstCommitWrites | controllers/heartbeat_controller.go:184-202 | of the commits racing on an absent Secret the first one writes its token |
| TokenRace.StaleCommitFails | controllers/heartbeat_controller.go:184-202 | a commit that read before the latest write, or before the Secret existed, fails and leaves it alone |
| TokenRace.SyncUrlHeals | controllers/heartbeat_controller.go:231-249 | over every run, the URL patch makes the Secret's URL that of its own token and keeps the token |
| TokenRace.StepKeepsInv | controllers/heartbeat_controller.go:161-249 | every read, commit, failure and URL patch keeps the Secret's history settled |
| Scheduler.DelayIsLeast | internal/probes/scheduler.go:156-166 | on every clock the initial delay is positive and lands on the phase; it is the least such delay if and only if the clock is from 1970 on or the offset plus the distance to the next interval boundary fits one interval |
| Scheduler.FiresOnPhase | internal/probes/scheduler.go:112-132 | a loop fires at exactly the instants of its phase from its first tick on; from 1970 on, those after its start |
| Scheduler.PhaseIsStable | internal/probes/scheduler.go:112-166 | loops started at different times agree on every instant after both first ticks; from 1970 on, after both starts |
| Scheduler.ProbeScheduler.Begin | internal/probes/scheduler.go:54-58 | marks the scheduler started and nothing else |
| Scheduler.ProbeScheduler.Add | internal/probes/scheduler.go:75-99 | replaces the key's entry, closing the old channel once; before start it only removes |
| Scheduler.ProbeScheduler.Remove | internal/probes/scheduler.go:102-110 | removes the entry and closes its channel once |
| Scheduler.ProbeScheduler.End | internal/probes/scheduler.go:60-66 | closes every channel in the map once and empties it |
| Scheduler.SchedulerLifecycle | internal/probes/scheduler.go:54-110 | over every operation sequence open channels are exactly those in the map, every other one made is closed, and each key runs its latest registered spec |
| Cron.FiresAtOneResidue | controllers/cron.go:22-50 | a compiled schedule fires, over all time, at exactly one residue modulo the interval in whole minutes: the minute of the hash's phase |
| Cron.FiringsAreIntervalApart | controllers/cron.go:22-50 | consecutive firings are exactly the interval apart, across hours and days |
| Cron.CompilesIffAdmitted | api/v1alpha1/k6test_webhook.go:101-138 | compilation succeeds exactly when admission accepts, with the same reason otherwise |
| Cron.AcceptedIff | api/v1alpha1/k6test_webhook.go:101-138 | admission accepts exactly nineteen whole-minute lengths, listed: those that divide an hour or a day evenly |
| Assertions.SplitAssertionExpr | api/v1alpha1/assertion_expr.go:50-65 | the loop returns the parts around the first candidate that occurs |
| Assertions.SplitPriority | api/v1alpha1/assertion_expr.go:50-65 | every text is split at its first `<=`, failing that its first `>=`, then `!=`, `<`, `>`, `=`; without one it does not split |
| Text.CutIsFirst | api/v1alpha1/assertion_expr.go:52-55 | the cut is at the first occurrence, and there is none if it fails |
| Assertions.SplitPrinted | api/v1alpha1/assertion_expr.go:50-65 | every printed variable, operator and literal, however spaced, splits back into its parts |
| Assertions.EvalPrinted | internal/probes/assertions.go:15-42 | a printed assertion evaluates to the float comparison it spells, NaN and infinities included |
| Assertions.HTTPAssertionMeans | internal/probes/assertions.go:78-90 | however spaced, each HTTP variable compares its own measurement with the number, by each of the six operators; without a certificate the days left are -1 |
| Assertions.DNSAndTCPAssertionMeans | internal/probes/assertions.go:93-109 | the same for DNS answers and durations and TCP durations |
| Assertions.AgainstNonFinite | internal/probes/assertions.go:25-42 | only `!=` holds against NaN, numbers lie strictly between the infinities, an infinity equals itself |
| Assertions.AcceptedNeverErrs | internal/probes/assertions.go:15-109 | for each probe kind, an expression is accepted at admission if and only if it never errs at run time |
| Assertions.EvalAssertions | internal/probes/assertions.go:47-65 | ok if and only if all pass; the name is the first failing one's; one result per assertion |
| PingPath.ParsesExactly | internal/heartbeat/receiver.go:274-300 | accepted paths are exactly an acceptable token with one of three suffixes, and parse to what the suffix means |
| PingPath.ShapesRoundTrip | internal/heartbeat/receiver.go:274-300 | the three shapes parse back for every acceptable token and exit code |
| PingPath.TokenAlphabet | internal/heartbeat/token.go:48-70 | acceptable tokens, in ASCII codes: at least sixteen letters, digits, `-`, `.`, `_` or `~` |
| Text.AtoiOfItoa | internal/heartbeat/receiver.go:292-296 | the decimal form of every natural number is read back, or refused where it exceeds 9223372036854775807 |
| Text.AtoiReadsDecimal | internal/heartbeat/receiver.go:292-296 | one more digit makes the value ten times as large plus that digit |
| Text.AtoiSigned | internal/heartbeat/receiver.go:292-296 | a sign in front of digits is read as such |
| Text.AtoiOnlyNumerals | internal/heartbeat/receiver.go:292-296 | nothing but digits with at most one sign is read |
| Text.TrimToNothing | controllers/heartbeat_controller.go:166-168 | exactly the blank texts trim to nothing |
| Text.SpaceCodes | controllers/heartbeat_controller.go:166-168 | the white space that is trimmed, in code points |

## Left out

- HTTP, DNS and TCP executors, TLS and error classification: network I/O and foreign error types.
- Certificate generation and rotation, CronJob and pod building, runners, Helm and CRD YAML: plumbing.
- OpenTelemetry instruments and the Prometheus export: the model stops at the store's contents.
- Result fields other than the result class and the run time: copied through.
- Receiver HTTP methods, headers, body capture and the warm-up timer: only the index, readiness and paths are modelled.
- Bring-your-own tokens (`adoptToken`): a single read with no race.
- Concurrent admissions, and a resync racing a delete or a late result: the code has no generation check, so nothing is claimed.
- Locks and goroutine wake-up after a stop: methods are atomic, as their mutexes make them; a run loop is its firing instants.
- Cron schedules are fields rather than text; the meaning of `o/t` and `*/t` is that of Kubernetes CronJob schedules, in UTC.
- PingWriter.ReseedIsSafe: the quarter-period bound needs the newest ping delivered last, fresh reads and successful writes; the outcome half has its exact condition in `ReseedOkIff`.
- PingWriter.ReseedOkIff: pings are dated at least one second after the start of 1970, below which a stored ping reads as none.
- Rounding of float64 values: numbers are exact reals, infinities or NaN.
