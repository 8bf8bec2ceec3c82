# NodeAgent: verified models of its reconciliation, accounting and provisioning cores

This project models the parts of the node agent whose state must stay consistent over whole runs, and proves what
they keep. `dafny verify dfyconfig.toml` checks all of it.

**WireGuard peer reconciliation.** A request's users are normalised, turned into desired peers, diffed against the peer
store, sent to the kernel and committed to a two-way index (`Keys`, `Networks`, `DesiredPeers`, `SyncDiff`, `PeerStore`,
`Device`, `Reconcile`, `Snapshot`); `Spelling` and `Aliases` say what becomes of keys spelt in other ways than the store
prints them. `WireGuardRuns` is the state machine of startup, partial sync, full sync and restart; `WireGuard` holds the
backend object whose methods are proved to take exactly those steps; `WireGuardPeers` says whose peers are stored after
each of them; `WireGuardExamples` has short runs that end badly. The main result: in every state of every run store and
kernel agree, and no partial sync changes the peer of an email it does not touch, if and only if every request of the
run is clear: no prefix of an untouched peer, no stored key by another text, no key by two texts. The kernel is a set of
peers and a routing map from prefixes to peers: a prefix given to one peer is taken from any other.

**Traffic ledgers.** `Tracker` holds the per-peer statistics object. `TrafficLedger` runs it beside a kernel whose
counters start again from zero at any time and a poll that reads and applies apart, and accounts for every byte carried:
it is reported, pending, lost, under way or unread, and counted twice exactly when a sample is applied stale. `Usage`
does the same for the shared core's absolute counters, with drops and re-adds, and `UsageRuns` ties it to every run of
the manager.

**Multi-tenant manager.** `Tenants` and `TenantRegistry` are the tenant registry with its store; `XrayAccounts`,
`XrayInbounds` and `XrayConfig` are the client maps of the Xray configuration; `SharedState`, `SharedOps` and
`SharedRuns` are the manager as a state machine, with the invariant over every run; `SharedRecovery` says what a
suspension undoes and how a call the core refuses half way is made good; `SharedLoops` and `Manager` hold the manager
object, each method proved against its step, and `CoreView` ties its core to the Xray configuration; `TenantStats` is
what a tenant is shown, `Isolation` what unique credentials mean for accounts.

**Two refinements.** `LogRing` is the startup log ring against an unbounded history, `Chunks` the chunked user list.

## How the source is read

- One lock-held method is one step. A Go map range or a sorted key list is visited in an arbitrary order
  (`Base.Enumerate`), so results hold for every order.
- Kernel calls, live core calls and the core's start are inputs: a flag or a function says whether they succeed, and a
  core that starts is given as its inbounds. A failing kernel call has no effect. When the live core refuses a user
  `SyncUser` has already updated its client maps, so the model's client maps follow the user and the call reports the
  failure. Saves to the tenant store succeed.
- Time, statistics rows and stream messages are inputs.
- A parsed WireGuard key is the base64 text it prints as. UUID parsing, base64 of passwords and SHA-256 are given
  functions with a round-trip law and a digest length.
- Integers are unbounded except for the 64-bit chunk index, whose wrap-around is written out.

## What turned out to need a condition

- A partial sync keeps store and kernel in agreement, and other emails' peers as they are, exactly when it is clear
  (`PartialStepExact`); startup and full sync keep agreement exactly when no key has two texts (`ReplacedExactly`,
  `FullStepExact`). `TakenPrefixBreaksAgreement`, `AliasTakesOthersPeer`, `AliasLeavesKernel` and `TwoTextsDisagree` are
  the ways to fail.
- The interface test turns an IPv4-mapped peer away from an unmapped IPv6 pool that covers it
  (`MappedPeerTurnedAway`); `AllowedExactly` gives the exact meaning.
- The tracker counts bytes twice exactly when a sample is applied stale: its entry, live at the reading, was removed and
  forgotten before the sample was applied (`RecountsExactly`, `StaleWasForgotten`, `StaleSampleCountsTwice`).
- A batch of users gives what syncing them one by one gives exactly when no email is unserved first and served last
  (`BatchEqualsFold`), and what a full sync gives exactly when no email has both kinds of users (`BatchEqualsFull`).
  Incremental and full provisioning differ when a Shadowsocks-2022 method is not one the length check knows
  (`IncrementalMatchesFull`).
- Two tenant ids collide exactly when one continues the other after a dot (`IdsCollideExactly`); the manager's results
  are for ids without a dot.
- `StartCore` re-adds nobody; `StartCoreReaddsNobody` says exactly when that leaves the core right.
- A `SetTenantUsers` the core refuses half way keeps the invariant exactly when it dropped nobody, entered nobody new
  and refreshed nobody who is served otherwise (`HalfwayInvariant`); repeating it completes it (`RetryCompletes`).
- A user is charged twice exactly when a poll finds it registered with a reading of the core's present epoch forgotten:
  dropped and added again with no poll and no restart in between (`RechargesExactly`, `RunRechargesExactly`).
- Users of two tenants share an account secret exactly when both secrets are empty, or differ in spelling and mean the
  same at the inbound: empty secrets are served and not indexed, ids are parsed and 2022 keys normalised, and the index
  compares spellings (`AccountsIsolated`, `EmptySecretsPassTheCheck`, `SpellingsPassTheCheck`). Secrets that are not
  empty and are spelt as meant are never shared (`CanonicalAccountsIsolated`).
- The credential index may keep entries of replaced credentials, so its soundness is proved and not its exactness.

## Model

| member | source | states |
|---|---|---|
| `Keys.ParseKey` | backend/wireguard/user_common.go:226-230 | a text that parses yields a canonical key |
| `Keys.ParsePrinted` | backend/wireguard/user_common.go:293-297 | printing a key and parsing it again gives the key back |
| `Keys.EveryKeyHasAnAlias` | backend/wireguard/user_common.go:226-230 | every key has a second text that parses to it, so texts are not keys |
| `Keys.SameKeyExactly` | backend/wireguard/user_common.go:226-230 | two texts parse to one key exactly if, line breaks aside, they agree in 42 symbols and the four bits that count of the next |
| `Networks.AdmitsExactly` | backend/wireguard/user_common.go:194-208 | one pool admits a peer exactly if it has the same family and covers every address of the peer, and is mapped if the peer is |
| `Networks.AllowedExactly` | backend/wireguard/user_common.go:190-211 | a peer prefix is allowed exactly if no network is configured or some configured network admits it in that sense |
| `Networks.TextExactly` | backend/wireguard/user_common.go:256 | two networks have one canonical text exactly if they are equal or one is the IPv4-mapped form of the other |
| `Networks.MappedPeerTurnedAway` | backend/wireguard/user_common.go:198-203 | `::/0` covers `::ffff:1.2.3.4/128` and the test still refuses it |
| `DesiredPeers.ServingAllowsExactly` | backend/wireguard/config.go:86-103 | an interface with networks takes a peer exactly if it has none itself or one that covers it, in that sense |
| `DesiredPeers.NormalizeUsers` | backend/wireguard/user_common.go:309-331 | for each email exactly the last usable user survives, whatever the order |
| `DesiredPeers.Reserve` | backend/wireguard/user_common.go:237-261 | a user's allowed prefixes up to the first malformed text are reserved under its email, or one of them is already held by another |
| `DesiredPeers.ReadAsk` | backend/wireguard/user_common.go:218-265 | one turn reads exactly what the user asks for, including prefixes reserved by a user that gets no peer |
| `DesiredPeers.AskExactly` | backend/wireguard/user_common.go:218-276 | a user asks for a peer exactly if it is assigned to the interface, its key parses, no address is malformed and one is on the interface; the peer has its email, its key and the networks of those addresses |
| `DesiredPeers.ClaimExactly` | backend/wireguard/user_common.go:218-261 | it reserves exactly the networks on the interface before its first malformed address, whether or not it gets a peer |
| `DesiredPeers.SelectsOnce` | backend/wireguard/user_common.go:237-261 | the networks of a list that lie on the interface are determined by it |
| `DesiredPeers.CollectDesiredPeers` | backend/wireguard/user_common.go:213-280 | fails exactly if two users of different emails reserve one prefix or get a peer under one key text; otherwise a peer is there for exactly the users assigned to the interface whose key parses, with no malformed address and one on the interface, and its networks are those of the addresses on the interface, in order |
| `DesiredPeers.ConflictExactly` | backend/wireguard/user_common.go:256-272 | a request is refused exactly if two of its users contend, in the fields of the users |
| `DesiredPeers.CollectsExactly` | backend/wireguard/user_common.go:213-280 | the collected peers are exactly those the users get |
| `DesiredPeers.CollectsOnce` | backend/wireguard/user_common.go:213-280 | the collected map is determined by what is asked |
| `DesiredPeers.CollectedShape` | backend/wireguard/user_common.go:263-276 | collected peers have networks, one peer an email and no prefix at two peers |
| `SyncDiffs.UpdateStored` | backend/wireguard/user_common.go:68-101 | stored peers are kept, upserted or removed, and configured with replacement, exactly as their target differs |
| `SyncDiffs.AddNew` | backend/wireguard/user_common.go:103-113 | with the new targets, the upserts and configurations are exactly the needed ones, once each |
| `SyncDiffs.BuildRemoveConfigs` | backend/wireguard/user_common.go:282-303 | one removal for each removed key that parses, and only those |
| `SyncDiffs.BuildSyncDiff` | backend/wireguard/user_common.go:51-137 | the diff for some order of visiting the maps, additions before removals |
| `PeerStores.IndependentUpsertsOverride` | backend/wireguard/peer_store.go:56-73 | upserts with distinct keys and emails, one after another, are the simultaneous override |
| `PeerStores.UpsertOrderIrrelevant` | backend/wireguard/peer_store.go:56-73 | reordering such upserts changes nothing |
| `PeerStores.ByKeyHolds` | backend/wireguard/peer_store.go:29-37 | distinct peers are all filed and the two maps are inverses |
| `PeerStores.PeerStore.Index` | backend/wireguard/peer_store.go:84-95 | files a list by key and by email, as inverses if it has neither a key nor an email twice |
| `PeerStores.PeerStore.Init` | backend/wireguard/peer_store.go:25-38 | an empty store becomes exactly the given peers |
| `PeerStores.PeerStore.RemoveAll` | backend/wireguard/peer_store.go:48-54 | the named keys leave both maps, and those that were there are reported once each |
| `PeerStores.PeerStore.Upsert` | backend/wireguard/peer_store.go:61-72 | the maps stay inverses, and the new peer takes its key and its email from whoever held them |
| `PeerStores.PeerStore.ApplyChanges` | backend/wireguard/peer_store.go:42-76 | for any arguments the maps stay inverses; removals come first, and the reported keys are those that were stored |
| `PeerStores.PeerStore.ReplaceAll` | backend/wireguard/peer_store.go:80-108 | the store becomes the given peers and the keys that left are reported once each |
| `PeerStores.PeerStore.GetByEmail` | backend/wireguard/peer_store.go:111-119 | finds a peer exactly if some stored peer has the email, and it is that peer |
| `Devices.SettlesOnce` | backend/wireguard/user_partial_sync.go:61-63 | the order-free outcome of a set of kernel configurations is unique |
| `Devices.ConfigureSettles` | backend/wireguard/user_partial_sync.go:61-63 | compatible configurations reach that outcome in whatever order they are sent |
| `Reconcile.CommitReconciles` | backend/wireguard/user_partial_sync.go:47-66 | committing the diff leaves untouched emails their peers and gives touched emails exactly the desired ones, also when keys are permuted; the removed keys are those that left |
| `Reconcile.ReconciledOnce` | backend/wireguard/user_partial_sync.go:22-72 | that outcome is unique |
| `Reconcile.PartialAgreement` | backend/wireguard/user_partial_sync.go:52-66 | after it store and kernel agree if and only if no desired prefix belongs to an untouched peer |
| `Reconcile.DiffIsApplied` | backend/wireguard/user_common.go:85-115 | the kernel reaches the order-free outcome of the diff's configurations |
| `Reconcile.AgreementIsUnique` | backend/wireguard/wireguard.go:274-283 | a store determines the kernel that agrees with it |
| `Snapshots.BuildTargetPeerConfigs` | backend/wireguard/user_common.go:144-164 | a snapshot of exactly the peers that have networks |
| `Snapshots.BuildPeerConfigsForRestart` | backend/wireguard/wireguard.go:301-317 | an error exactly if a stored peer has no networks, otherwise a snapshot of all peers |
| `Snapshots.SnapshotAgreement` | backend/wireguard/user_full_sync.go:38-49 | a snapshot brings the kernel into agreement if and only if no prefix is stored at two peers |
| `Spellings.RespeltIsCanonical` | backend/wireguard/user_common.go:226-276 | the desired peers under their printed keys are well collected and canonical |
| `Spellings.DiffRespelt` | backend/wireguard/user_common.go:51-137 | with one text a key and none for a stored key but its own, the diff of a request is the diff of its canonical spelling |
| `Aliases.OneTextIsExact` | backend/wireguard/user_partial_sync.go:22-72 | such a request keeps every other email's peer, and ends in agreement if and only if it asks for no prefix of an untouched peer |
| `Aliases.AliasTakesOthersPeer` | backend/wireguard/user_partial_sync.go:36-45 | another text for the key of an untouched email takes that email's peer away: the ownership check compares texts |
| `Aliases.AliasLeavesKernel` | backend/wireguard/user_common.go:68-115 | a touched email's stored key asked for by another text only leaves the kernel and stays in the store |
| `Aliases.TwoTextsDisagree` | backend/wireguard/user_common.go:68-115 | of two texts of one key the kernel has the prefixes of both and the store those of one |
| `Aliases.PartialExactly` | backend/wireguard/user_partial_sync.go:22-72 | for any spelling, from agreement: agreement again and every other email's peer kept, if and only if no prefix of an untouched peer, no stored key by another text and no key twice is asked for |
| `WireGuardRuns.PartialReconciles` | backend/wireguard/user_partial_sync.go:22-72 | a partial sync with one text a key reconciles the store with the canonical spelling, and the keys it removes are exactly those that left |
| `WireGuardRuns.PartialStepExact` | backend/wireguard/user_partial_sync.go:22-72 | from agreement, any partial sync that goes through ends in agreement with every other email's peer kept if and only if it is clear |
| `WireGuardRuns.UnchangedExactly` | backend/wireguard/user_full_sync.go:23-25 | however keys are spelt, the shortcut of a full sync fires exactly if the store already holds the desired peers |
| `WireGuardRuns.FullStep` | backend/wireguard/user_full_sync.go:9-55 | after a full sync with one text a key the store holds exactly the desired peers, in agreement if there was agreement or anything changed |
| `WireGuardRuns.FullStepExact` | backend/wireguard/user_full_sync.go:9-55 | from agreement, any full sync that goes through ends in agreement if and only if no two texts parse to one key |
| `WireGuardRuns.ReplacedExactly` | backend/wireguard/wireguard.go:160-192 | startup, or a full sync that changes anything, ends in agreement if and only if no two texts parse to one key |
| `WireGuardRuns.CanonicalRequestsAreClear` | backend/wireguard/user_common.go:226-230 | a request that spells keys as the store prints them meets both conditions on spelling |
| `WireGuardRuns.RestartStepExact` | backend/wireguard/wireguard.go:239-288 | a restart restores agreement exactly if no prefix is stored twice, and changes nothing when there was agreement |
| `WireGuardRuns.AgreementOverRuns` | backend/wireguard/wireguard.go:160-192 | over every run from startup, with any spelling: store and kernel agree in every state and no partial sync changes another email's peer, if and only if startup and every step are clear |
| `WireGuardPeers.PartialStoresAsked` | backend/wireguard/user_partial_sync.go:22-72 | after a partial sync every stored peer of a touched email is that of a user of the request assigned to the interface; in a clear one all of those users have theirs |
| `WireGuardPeers.FullStoresAsked` | backend/wireguard/user_full_sync.go:9-55 | after a full sync the store holds only peers of the request's assigned users, all of them if no key has two texts |
| `WireGuardPeers.StartStoresAsked` | backend/wireguard/wireguard.go:160-199 | the same after startup |
| `WireGuardPeers.StoredPeerIsItsUsers` | backend/wireguard/user_common.go:305-307 | so a request's user whose email has a stored peer is assigned to the interface, and the peer is its own |
| `WireGuardPeers.StoredWasAsked` | backend/wireguard/user_common.go:213-280 | in every state of every run each stored peer is that of an assigned user of the startup or of an earlier request |
| `WireGuardExamples.TakenPrefixBreaksAgreement` | backend/wireguard/user_partial_sync.go:22-72 | for any two keys and network, starting with one user and adding another with the same network is a run that begins in agreement and ends without |
| `WireGuardRuns.FullEqualsPartial` | backend/wireguard/user_full_sync.go:9-55 | when every stored email is touched and keys are spelt clearly, full and partial sync end in the same store and kernel |
| `WireGuardRuns.PartialKeepsStoreSound` | backend/wireguard/user_partial_sync.go:66-66 | however the request spells its keys, the store files peers with networks under printed keys, one an email |
| `WireGuardExamples.AliasTakesPeer` | backend/wireguard/user_partial_sync.go:36-45 | adding a user who spells a stored key with a line break is a run that takes the first user's peer |
| `WireGuards.ShortcutIsTheFilter` | backend/wireguard/user_common.go:170-172 | the equal-length shortcut returns what the filter would |
| `WireGuards.FilterUpsertsByAppliedKeys` | backend/wireguard/user_common.go:169-180 | the upserts whose key was applied, in order, but for the shortcut |
| `WireGuards.FreshDiff` | backend/wireguard/wireguard.go:160-192 | against an empty store everybody is upserted, so startup takes the shortcut |
| `WireGuards.WireGuard.constructor` | backend/wireguard/wireguard.go:130-141 | a backend before startup has an empty, sound store and no manager |
| `WireGuards.WireGuard.Collect` | backend/wireguard/user_partial_sync.go:23-34 | the touched emails and what the request wants, or a refusal exactly if two users clash |
| `WireGuards.WireGuard.ExistingSubset` | backend/wireguard/user_partial_sync.go:12-20 | exactly the stored peers of the touched emails |
| `WireGuards.WireGuard.OwnersAllow` | backend/wireguard/user_partial_sync.go:36-45 | passes exactly if no desired key is stored for an untouched email |
| `WireGuards.WireGuard.Retire` | backend/wireguard/user_partial_sync.go:67-69 | exactly the listed keys are retired in the tracker |
| `WireGuards.WireGuard.PlanPartial` | backend/wireguard/user_partial_sync.go:22-64 | fails exactly for the stated reasons, otherwise settles the diff to send |
| `WireGuards.WireGuard.Commit` | backend/wireguard/user_partial_sync.go:61-69 | kernel and store take the diff, and the stored keys among the removals are retired |
| `WireGuards.WireGuard.PlanFull` | backend/wireguard/user_full_sync.go:9-36 | fails exactly for the stated reasons, otherwise settles what to replace, or that nothing changed |
| `WireGuards.WireGuard.Swap` | backend/wireguard/user_full_sync.go:38-52 | the kernel holds the snapshot and nothing else, the store the list, and the keys that left are retired |
| `WireGuards.WireGuard.ReplaceEverything` | backend/wireguard/user_full_sync.go:27-52 | kernel and store hold the desired peers and nothing else, and the keys that left are retired |
| `WireGuards.WireGuard.SyncUsersPartialReconcile` | backend/wireguard/user_partial_sync.go:22-72 | errs exactly for the stated reasons with nothing changed, otherwise takes the partial step and retires exactly the removed keys |
| `WireGuards.WireGuard.SyncUsersFull` | backend/wireguard/user_full_sync.go:9-55 | errs exactly for the stated reasons with nothing changed, otherwise takes the full step and retires exactly the keys that left |
| `WireGuards.WireGuard.RestartLocked` | backend/wireguard/wireguard.go:239-288 | takes the restart step or changes nothing; with a sound store the missing-networks error never occurs |
| `WireGuards.WireGuard.Install` | backend/wireguard/wireguard.go:179-199 | from an empty store, the kernel holds the snapshot, the store the list, and the backend runs |
| `WireGuards.WireGuard.Launch` | backend/wireguard/wireguard.go:179-199 | the first snapshot and the filtered upserts leave kernel and store with the desired peers |
| `WireGuards.WireGuard.PlanStart` | backend/wireguard/wireguard.go:160-172 | fails exactly if two users clash, otherwise settles a snapshot and upserts of everybody desired |
| `WireGuards.WireGuard.Start` | backend/wireguard/wireguard.go:160-199 | fails exactly on a clash or a refusing kernel, otherwise reaches a started state |
| `Trackers.DeltaStatsExact` | pkg/stats/interface_counters.go:51-75 | the rows built for pending bytes add up to exactly them |
| `Trackers.Tracker.Refresh` | pkg/stats/tracker.go:71-114 | the entry stands at the sample, live, and its pending bytes grew by the credit, through re-add and rollback |
| `Trackers.Tracker.ApplySample` | pkg/stats/tracker.go:63-114 | only the sampled key changes, and entries stay sound |
| `Trackers.Tracker.UpdateStatsBatch` | pkg/stats/tracker.go:49-61 | a batch is its samples one after another |
| `Trackers.Tracker.RemoveStats` | pkg/stats/tracker.go:261-277 | the entry is marked deleted and sets its pending bytes aside |
| `Trackers.Tracker.CleanupDeletedEntries` | pkg/stats/tracker.go:287-296 | exactly the deleted entries whose counts were all reported go, and the others stay as they are |
| `Trackers.Tracker.Report` | pkg/stats/tracker.go:131-149 | the rows of one key's pending bytes, and its reset |
| `Trackers.Tracker.GetStats` | pkg/stats/tracker.go:117-153 | reports exactly the pending bytes of the listed keys; a reset leaves none pending, forgets the deleted ones and repeats nothing; without one the rows are those of each listed key in order |
| `Trackers.Tracker.GetUsersStats` | pkg/stats/tracker.go:156-187 | the same for all keys, in any order |
| `TrafficLedger.LedgerIsExact` | pkg/stats/tracker.go:63-114 | over every run, with reading and applying apart, reported plus pending equals the credited growth, pending is never negative and a deleted entry has set aside exactly its pending bytes |
| `TrafficLedger.NeverOverReports` | backend/wireguard/jobs.go:55-100 | over every interleaving of traffic, counter restarts, removals, readings, samples, resets and cleanups in which no sample is applied stale, reported plus pending never exceeds the bytes carried, in each direction |
| `TrafficLedger.NothingLost` | pkg/stats/tracker.go:63-114 | over every run in which no counter restarts and the peer is not removed, every byte carried is reported, pending, under way or unread, once: none is lost |
| `TrafficLedger.StepIsSteady` | pkg/stats/tracker.go:63-114 | every byte carried stays credited, lost, under way or unread, and only a stale sample is counted twice: exactly in what earlier readings covered |
| `TrafficLedger.RecountsExactly` | backend/wireguard/jobs.go:55-100 | bytes are counted twice in a run if and only if some sample is applied stale |
| `TrafficLedger.OverReportsExactly` | pkg/stats/tracker.go:63-114 | reported plus pending is within the bytes carried if and only if no more bytes were counted twice than were lost, are under way or unread |
| `TrafficLedger.StaleWasForgotten` | backend/wireguard/jobs.go:55-100 | a reading whose counters were partly covered before finds a live entry, so a stale sample's entry was removed and forgotten since |
| `TrafficLedger.StaleSampleCountsTwice` | backend/wireguard/jobs.go:55-100 | a run in which a sample read before a removal is applied after the reset reports every byte twice |
| `Tenants.RunsAreConsistent` | tenant/registry.go:106-265 | after every run memory and store agree and the two indexes are inverses on key hash |
| `Tenants.RestartRecovers` | tenant/registry.go:75-92 | rebuilding from the store, in any load order, gives back both indexes |
| `Tenants.AuthorizeMatchesEnforce` | tenant/auth.go:47-74 | a key is allowed exactly if it is an active tenant's that an enforcement at that time would leave active, and decisions do not change across that enforcement |
| `Tenants.AuthorizeExactly` | tenant/auth.go:47-74 | a key is allowed exactly if it is that of an active tenant, not expired, whose used bytes are below its quota and credit together; an unknown key is not authenticated |
| `Tenants.RefusalExactly` | tenant/auth.go:62-73 | the code and reason of every decision on a known key: suspension with its reason, then expiry, then quota |
| `Tenants.EnforceExactly` | tenant/registry.go:281-299 | an enforcement suspends an active tenant exactly if it is expired, or has used its quota and credit, for that reason, and changes nobody else |
| `Tenants.CreatedExactly` | tenant/registry.go:106-141 | each field of a new tenant, and that no other changes |
| `Tenants.UpdatedExactly` | tenant/registry.go:166-249 | each field after a charge, new limits, a suspension, a resumption and a reset, for the tenant named and for the others |
| `Tenants.EnforceSettles` | tenant/registry.go:276-301 | a second enforcement at the same time flips nobody |
| `Tenants.SuspendedStaysDenied` | tenant/registry.go:166-265 | until resumed, reset or deleted a suspended tenant stays denied, and usage never falls within a period |
| `TenantRegistry.MemStore.LoadTenants` | tenant/store.go:27-35 | exactly the saved tenants, in any order |
| `TenantRegistry.MemStore.SaveTenant` | tenant/store.go:37-42 | the tenant is saved under its id |
| `TenantRegistry.MemStore.DeleteTenant` | tenant/store.go:44-49 | the id leaves the store |
| `TenantRegistry.Registry.constructor` | tenant/registry.go:75-92 | over a store left by a consistent registry, that registry |
| `TenantRegistry.Registry.CreateTenant` | tenant/registry.go:106-141 | a new active tenant in both indexes and the store, or an error for a taken id, then for a taken key |
| `TenantRegistry.Registry.AddUsage` | tenant/registry.go:166-181 | usage grows by the delta, a negative one counting as nothing, in memory and store |
| `TenantRegistry.Registry.SetQuota` | tenant/registry.go:184-198 | limits change in memory and store, and nothing else |
| `TenantRegistry.Registry.Suspend` | tenant/registry.go:201-214 | the tenant is suspended for the reason, in memory and store |
| `TenantRegistry.Registry.Resume` | tenant/registry.go:217-230 | the tenant is active without a reason, in memory and store |
| `TenantRegistry.Registry.ResetPeriod` | tenant/registry.go:234-249 | a new period with no usage, active, in memory and store |
| `TenantRegistry.Registry.Delete` | tenant/registry.go:252-265 | the tenant leaves both indexes and the store |
| `TenantRegistry.Registry.Sweep` | tenant/registry.go:280-300 | the loop flips and saves exactly the visited tenants that fall and reports each once |
| `TenantRegistry.Registry.Enforce` | tenant/registry.go:276-301 | exactly the active tenants that are expired or have used their quota and credit are suspended, for that reason, and each is reported once as it is afterwards |
| `XrayAccounts.NormaliserIdempotent` | common/helper.go:39-65 | normalising a key twice is normalising it once if the method is recognised; otherwise the second pass hashes again |
| `XrayAccounts.NormaliserExactly` | common/helper.go:39-65 | a password that is a key of the method's length is kept, and any other becomes the key made of the first 16 or all 32 bytes of its own hash |
| `XrayAccounts.ContainsExactly` | common/helper.go:44-45 | the method test finds a part wherever it occurs, and only then |
| `XrayAccounts.ServedExactly` | backend/xray/user.go:14-118 | whom an inbound serves and with which account, in the fields of the user: assignment, parsed ids, flow, passwords and the Shadowsocks method |
| `XrayAccounts.Served2022Exactly` | backend/xray/user.go:95-104 | the key a user is served with at a 2022 inbound: the password if it is a key of the method's length, else its hash's key, hashed twice where the length is not known |
| `XrayAccounts.HashedKeysCollideExactly` | common/helper.go:51-64 | two passwords that are no keys are served as one exactly if the used parts of their hashes are equal |
| `XrayAccounts.ServedFits` | backend/xray/user.go:74-118 | every account made for an inbound is of the kind the inbound serialises |
| `XrayAccounts.IncrementalMatchesFull` | backend/xray/config.go:121-203 | incremental and full provisioning make the same account at recognised methods, and at others exactly if hashing reproduces the key |
| `XrayInbounds.BatchEqualsFold` | backend/xray/config.go:241-299 | a batch equals syncing its users one by one if and only if every email with an unserved user is unserved at its last place |
| `XrayInbounds.BatchEqualsFull` | backend/xray/config.go:121-203 | from empty a batch equals a full sync if and only if no email has both a served and an unserved user |
| `XrayInbounds.DistinctEmailsAgree` | backend/xray/config.go:74-107 | batches with distinct emails meet both conditions |
| `XrayInbounds.RepeatedEmailDiffers` | backend/xray/config.go:74-107 | a batch that drops and re-adds one email loses it, one by one keeps it |
| `XrayConfig.Inbound.SyncUsers` | backend/xray/config.go:121-203 | the client map becomes exactly the served users |
| `XrayConfig.Inbound.UpdateUser` | backend/xray/config.go:205-239 | the account is filed under its email in its kept form |
| `XrayConfig.Inbound.UpdateUsers` | backend/xray/config.go:241-299 | accounts of the inbound's kind are filed, then the named emails go |
| `XrayConfig.Inbound.RemoveUser` | backend/xray/config.go:301-308 | the email leaves the client map |
| `XrayConfig.Inbound.ClientList` | backend/xray/config.go:319-390 | the serialised list holds exactly the clients of the inbound's kind; with typed clients all of them, each once |
| `XrayConfig.Config.SyncUser` | backend/xray/user.go:120-156 | at every inbound that is not excluded the user's account is in or the user is out |
| `XrayConfig.Config.InboundUpdate` | backend/xray/config.go:74-107 | the accounts of the active users and the emails of the others |
| `XrayConfig.Config.UpdateUsers` | backend/xray/config.go:109-119 | every inbound that is not excluded takes the batch |
| `XrayConfig.Config.SyncUsers` | backend/xray/config.go:60-67 | every inbound that is not excluded is refilled |
| `XrayConfig.PutAllAdds` | backend/xray/config.go:74-107 | no collected account is skipped by the inbound |
| `XrayConfig.ProvisioningStaysTyped` | backend/xray/config.go:319-390 | every form of provisioning keeps the clients typed, so serialising drops none |
| `XrayConfig.ThreeFormsAgree` | backend/xray/config.go:60-119 | the three forms of provisioning at an inbound agree exactly under those conditions, at recognised methods |
| `SharedState.PrefixIsOneTenants` | shared/manager.go:577-579 | a name carries the prefix of at most one dotless tenant |
| `SharedState.IdsCollideExactly` | shared/manager.go:577-579 | some name carries the prefixes of two ids if and only if they are the same or one continues the other after a dot |
| `SharedState.CollidingIdsShareNames` | shared/manager.go:577-579 | then users of the two tenants share a name |
| `SharedState.ConfiguredInboundsAreSound` | backend/xray/user.go:74-118 | every configured inbound serves only users assigned to its tag, as the manager's model assumes |
| `SharedState.CredentialsIsolated` | shared/manager.go:339-352 | two tenants never hold one credential |
| `SharedState.CredentialsExactly` | shared/manager.go:86-108 | a user's credentials are exactly the secrets of its message that are there and not empty, by protocol |
| `SharedState.OnlyActiveTenantsServed` | shared/manager.go:122-141 | at each inbound a stored user has its account if its tenant is active and none otherwise |
| `SharedState.NobodyElseServed` | shared/manager.go:547-575 | every client belongs to a stored user of an active tenant |
| `Isolation.AccountSecret` | backend/xray/user.go:14-42 | an account's secret is what the inbound makes of the secret its user spells for that protocol |
| `Isolation.PlainSecretsAreMeant` | backend/xray/user.go:24-39 | passwords an inbound keeps as spelt are spelt as meant |
| `Isolation.NormalisedKeysAreMeant` | common/helper.go:39-65 | at a recognised 2022 method a key is spelt as meant exactly if it decodes to the method's length |
| `Isolation.AccountsIsolated` | shared/manager.go:82-108 | users of two tenants have one account secret at an inbound if and only if both spell an empty secret, or they spell different secrets that mean the same there |
| `Isolation.CanonicalAccountsIsolated` | shared/manager.go:82-108 | users of two tenants who spell their secrets as meant, not both empty, never share an account secret |
| `Isolation.EmptySecretsPassTheCheck` | shared/manager.go:92-106 | two users with an empty password have no credential and one account secret |
| `Isolation.SpellingsPassTheCheck` | shared/manager.go:92-97 | two spellings of one id give users with no common credential the same account id |
| `SharedOps.SetKeeps` | shared/manager.go:322-382 | replacing a tenant's users keeps the invariant |
| `SharedOps.NewSetExactly` | shared/manager.go:333-337 | the new set has a name exactly for each listed user, and under it the proxies of the last user of that email with the forced inbounds, or its own if none are forced |
| `SharedOps.AddKeeps` | shared/manager.go:386-421 | merging a user keeps the invariant |
| `SharedOps.FallKeeps` | shared/manager.go:509-511 | tenants that fall leave the core with all their users and the invariant holds |
| `SharedOps.RiseKeeps` | shared/manager.go:436-443 | a tenant that rises brings all its users back and the invariant holds |
| `SharedOps.DeleteKeeps` | shared/manager.go:447-463 | deleting a tenant keeps the invariant |
| `SharedRuns.PollCharges` | shared/manager.go:483-507 | a poll raises every tenant's usage by exactly what the rows of its own users together grew by over their last readings |
| `SharedRuns.ChargeExactly` | shared/manager.go:484-501 | a tenant's charge is the sum, over its users among the rows, of the growth of the sum of their rows |
| `SharedRuns.PollSuspendsExactly` | shared/manager.go:468-513 | after a poll a tenant is active exactly if it was, is not expired and has quota or credit left after the charge |
| `SharedRuns.ChargeNonNegative` | tenant/registry.go:166-181 | a charge is never negative, so none of it is cut off |
| `SharedRuns.EnforceKeeps` | shared/manager.go:509-511 | enforcement keeps the invariant |
| `SharedRuns.ConfigKeeps` | shared/manager.go:122-141 | re-applying a configuration keeps the invariant |
| `SharedRuns.StartCoreReaddsNobody` | shared/manager.go:111-118 | a core started by itself is right if and only if it has nobody to serve |
| `SharedRuns.ResetKeeps` | controller/agent/admin.go:148-161 | a reset, with the core behind the status in between, ends with the invariant |
| `SharedRuns.StepKeeps` | shared/manager.go:111-513 | every operation keeps the invariant |
| `SharedRuns.RunsKeepInvariant` | shared/manager.go:111-513 | after every operation of every run: each inbound holds exactly the accounts of the active tenants' users it serves, the email index is the inverse of the user maps, and every credential is indexed under its own tenant |
| `SharedRuns.SetExactly` | shared/manager.go:322-382 | a replacement that goes through leaves the tenant with exactly the listed users and every other tenant with its own |
| `SharedRuns.AddedExactly` | shared/manager.go:386-421 | merging leaves the tenant with its users before and the listed ones, for each email the last, and every other tenant with its own |
| `SharedRuns.ReadingsMoveByPolls` | shared/manager.go:355-365 | a reading moves only by a poll, to the polled total, and is forgotten exactly when its user is dropped |
| `SharedRecovery.ExactIsUnique` | shared/manager.go:547-566 | the right core is determined by the users due |
| `SharedRecovery.SuspendThenResume` | shared/manager.go:425-443 | suspending an active tenant and resuming it gives back the very same core |
| `SharedRecovery.HalfwayIndexes` | shared/manager.go:367-380 | after a refused replacement the email index matches the stored users exactly if nobody was dropped and nobody new entered |
| `SharedRecovery.HalfwayInvariant` | shared/manager.go:354-380 | a refused replacement keeps the whole invariant if and only if nobody was dropped, nobody new entered and every refreshed user is served as before |
| `SharedRecovery.StillAcceptable` | shared/manager.go:339-352 | a refused replacement passes the credential checks again |
| `SharedRecovery.RetryCompletes` | shared/manager.go:354-381 | repeated until the core takes it, a refused replacement leaves the node as if taken at once |
| `SharedRecovery.RetryKeeps` | shared/manager.go:322-382 | so the invariant holds again |
| `SharedRecovery.ResumeRetried` | shared/manager.go:436-443 | a resumption refused half way and repeated is a resumption |
| `Usage.Delta` | shared/manager.go:490-496 | a delta never exceeds the total read |
| `Usage.TotalsExactly` | shared/manager.go:484-487 | a name has a total exactly if some row carries it, and the total is the sum over all its places among the rows |
| `Usage.LossesExactly` | shared/manager.go:489-501 | what a step leaves uncharged for good: the unpolled rest at a restart, all a poll of an unregistered user covers, and the old reading when the counter has passed it since a restart |
| `Usage.ChargedAtMostCarried` | shared/manager.go:489-501 | across core restarts, drops and re-adds, a user no poll finds with a forgotten reading is charged at most what was carried |
| `Usage.MeterIsExact` | shared/manager.go:489-501 | every byte carried is charged, lost or unpolled, but for readings forgotten and charged again |
| `Usage.ForgottenReadingChargesAgain` | shared/manager.go:361-361 | after a re-add that leaves a positive reading of the present epoch forgotten, the next poll charges that reading again |
| `Usage.RechargesExactly` | shared/manager.go:489-501 | something is charged twice if and only if some poll finds a registered user's reading of the present epoch forgotten |
| `Usage.OverchargedExactly` | shared/manager.go:489-501 | a user is charged within the bytes carried if and only if no more was charged twice than lost or unpolled |
| `Usage.CarefulAddsSuffice` | shared/manager.go:489-501 | if every re-add of a user with a positive reading follows a poll or a restart since the drop, nothing is charged twice |
| `Usage.DropAndAddForgets` | shared/manager.go:355-378 | dropping and re-adding a polled user at once is not such a re-add |
| `UsageRuns.RunCharges` | shared/manager.go:468-513 | over every run of the manager, for every email, what it was charged is what its meter says, so charged, lost and unpolled bytes add up to those carried and those charged again |
| `UsageRuns.RunRechargesExactly` | shared/manager.go:468-513 | over every run something is charged twice if and only if some poll reads a registered email with a forgotten reading of the present epoch |
| `UsageRuns.RunOverchargesExactly` | shared/manager.go:468-513 | over every run an email is charged within the bytes carried if and only if no more was charged twice than lost or unpolled |
| `UsageRuns.ChargeIsOfEmails` | shared/manager.go:498-500 | an email's charge is its part of its tenant's charge |
| `UsageRuns.StayingIsNeverOvercharged` | shared/manager.go:468-513 | over every run, across any number of core restarts, an email that is never dropped is charged at most the bytes carried |
| `UsageRuns.ChargesTelescope` | shared/manager.go:489-501 | over every run, between core restarts a registered email's charges add up to the growth of its readings |
| `Managers.Manager.constructor` | shared/manager.go:47-56 | a manager with no users, no readings and no core |
| `Managers.Manager.SyncUser` | backend/xray/user.go:120-156 | the client maps follow the user, and the live core's answer is returned |
| `CoreViews.SyncUser` | backend/xray/user.go:120-156 | on the Xray configuration it is the manager's sync of its view of the core |
| `CoreViews.RemoveUser` | backend/xray/user.go:169-201 | updating a user without inbounds on the configuration is the manager's removal on that view |
| `CoreViews.ViewIsSound` | backend/xray/user.go:74-118 | every inbound of the view serves only users assigned to it |
| `Managers.Manager.RemoveFromCore` | shared/manager.go:570-575 | whatever moved before, the one user now leaves every inbound too |
| `Managers.Manager.RemoveTenantFromCore` | shared/manager.go:547-554 | exactly the tenant's users leave every inbound |
| `Managers.Manager.AddTenantToCore` | shared/manager.go:556-566 | the tenant's users are synced until one is refused, and then it says so |
| `Managers.Manager.SuspendTenant` | shared/manager.go:425-433 | the suspension step, or an error for an unknown tenant with nothing changed |
| `Managers.Manager.ResumeTenant` | shared/manager.go:436-443 | the resumption step, an error for an unknown tenant, or the part done before a refusal |
| `Managers.Manager.ResetTenant` | controller/agent/admin.go:148-161 | the reset step, an error for an unknown tenant, or the new period with the part done before a refusal |
| `Managers.Manager.DeleteTenant` | shared/manager.go:447-463 | the deletion step, for unknown tenants too |
| `Managers.Manager.CheckUser` | shared/manager.go:343-351 | passes exactly if no credential of the user is in the batch under another email or indexed under another tenant |
| `Managers.Manager.CheckSet` | shared/manager.go:341-352 | passes exactly if no credential is shared within the set and none is another tenant's, and names a fault that is there |
| `Managers.Manager.BuildSet` | shared/manager.go:333-337 | a name exactly for each listed user, and under it the last user of that email with its proxies and the forced inbounds, or its own if none are forced |
| `Managers.Manager.DropUsers` | shared/manager.go:355-365 | exactly the dropped users leave the core and the three indexes |
| `Managers.Manager.EnterUsers` | shared/manager.go:368-378 | users are indexed and synced until one is refused |
| `Managers.Manager.SetTenantUsers` | shared/manager.go:322-382 | the replacement step, after which exactly the listed users are stored, the last of an email winning; a refusal with nothing changed for exactly the stated reasons; or the part done before the core refused |
| `Managers.Manager.MergeUser` | shared/manager.go:402-418 | one user is merged, or refused exactly if it carries another tenant's credential |
| `Managers.Manager.AddTenantUsers` | shared/manager.go:386-421 | the users before a refusal are merged in order into those there, and the error says what stopped the rest |
| `Managers.Manager.SetForceInbounds` | shared/manager.go:62-66 | later users are built with these inbounds, and nothing else changes |
| `Managers.Manager.Stop` | shared/manager.go:306-317 | no core, and nothing else changes |
| `Managers.Manager.StartCore` | shared/manager.go:111-118 | starts a core only if none runs |
| `Managers.Manager.Reapply` | shared/manager.go:131-139 | an active tenant's users are synced up to a refusal, an inactive tenant is passed over |
| `Managers.Manager.ApplyConfig` | shared/manager.go:122-141 | the configuration step: a fresh core holding the users of the active tenants; after a refusal only users of active tenants are in |
| `Managers.Manager.SumRows` | shared/manager.go:484-487 | a name has a total exactly if some row carries it, and the total is the sum over all its rows |
| `Managers.Manager.ReadDeltas` | shared/manager.go:488-501 | deltas add up by tenant over its own polled users, and the readings are remembered |
| `Managers.Manager.ChargeAll` | shared/manager.go:502-506 | the tenants with a delta are charged it once each, up to one that is gone |
| `Managers.Manager.Account` | shared/manager.go:483-507 | the accounting half of the poll; if a user's tenant is gone, the readings are remembered and the tenants before it charged |
| `Managers.Manager.EnforceQuotas` | shared/manager.go:509-511 | exactly the tenants that fall leave the core |
| `Managers.Manager.CollectAndEnforce` | shared/manager.go:468-513 | the poll step; it fails only if a user's tenant is gone, with the accounting done up to there |
| `Managers.Manager.GetTenantUserStats` | shared/manager.go:518-543 | the tenant's rows under its own names, nothing without a core |
| `TenantStats.TenantTotals` | shared/manager.go:530-541 | a user's total in the tenant's view is the core's total for the namespaced user |
| `TenantStats.OthersRowsHidden` | shared/manager.go:531-534 | no row of one tenant's user is shown to another |
| `LogRings.AddKeeps` | backend/xray/startup_diagnostics.go:37-47 | adding a line keeps the ring in step with the history, around the wrap |
| `LogRings.LogRing.constructor` | backend/xray/startup_diagnostics.go:19-27 | an empty ring of the asked size, at least one |
| `LogRings.LogRing.Reset` | backend/xray/startup_diagnostics.go:29-35 | the history starts again |
| `LogRings.LogRing.Add` | backend/xray/startup_diagnostics.go:37-47 | the line joins the history |
| `LogRings.LogRing.Tail` | backend/xray/startup_diagnostics.go:49-75 | the last lines of the history in order: as many as asked for, or all retained if that is too many or not positive |
| `Chunks.BuildUsersFromChunks` | controller/users_chunk.go:10-29 | the list in index order, the first gap, or the complaint that it is empty, within one turn more than there are chunks despite the 64-bit bound |
| `Chunks.AssemblyIsSettled` | controller/users_chunk.go:10-29 | it succeeds exactly if every index up to the last arrived with some user among them, and its answer is unique |
| `Chunks.RoundTrip` | controller/users_chunk.go:10-29 | a list that is not empty, cut into chunks anywhere, is what reassembly answers |
| `Chunks.ReceiveUsers` | controller/rpc/user.go:45-73 | reads up to the first final chunk and reassembles what arrived; a stream that ends or breaks before is an error |
| `Chunks.GatherAnyOrder` | controller/rpc/user.go:52-68 | chunks with distinct indexes gather to the same map in any order |
| `Chunks.GatherJoins` | controller/rpc/user.go:52-68 | chunks of one index are joined in the order of their arrival |
| `Chunks.GatherOne` | controller/rpc/user.go:52-68 | one chunk gathers to its own users under its index |
| `Chunks.ArrivalOrderIrrelevant` | controller/rpc/user.go:45-73 | earlier chunks with distinct indexes may arrive in any order, and nothing after the final chunk is read |

## Left out

- Chunks.BuildUsersFromChunks: a map holding all 2^64 indexes, which no memory holds, is excluded; with it the loop would not end.
- Managers.Manager.SyncUser: the live core's own user table is not modelled, only the client maps kept beside it, and the handler calls are one answer.
- UsageRuns.RunCharges: when the core restarts, and what traffic it carries between operations, are inputs, so every choice of them is covered.
- The flow that an inbound's settings override in calls to the live core: the client maps keep the user's own.
- Sorted order of keys, preshared keys, private keys and listen ports in kernel configurations.
- Failing saves to the tenant store, and its bbolt form.
- 64-bit overflow of byte counts, usage and period numbers.
- Reading of address and key texts beyond base64 (`net.ParseCIDR` is an input), and activity times and endpoints of peers.
- `InterfaceCountersTracker.Delta`, `ClearAllStats`, `GetStatsEntries` and shutdown: they would only add easy members.
- The sharing of user objects between the manager's maps: users are values.
- The manager's core is a value held in a field; the in-place update of its client maps is modelled in `XrayConfig`.
- The configuration document itself, its sharing and redaction, routing rules, TLS, servers, middleware and process control.
