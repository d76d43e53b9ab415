# rampart in Dafny

rampart keeps an inventory of software components and their SBOMs (dependency
lists), takes in indicators of compromise (IoCs), matches the two in both
directions and runs an incident life cycle on what it finds. Around that core
sit a Backstage catalog sync, an event stream, a Rust parsing sidecar, a
publisher refresh scheduler and a set of anomaly detectors. This project models
the parts of it whose correctness cannot be read off one function, and proves
what they promise for every input, every run and every interleaving.

`dafny verify dfyconfig.toml` checks everything.

## How the model is organised

| files | what they model |
|---|---|
| `Domain`, `Matcher`, `Engine`, `EngineMeaning`, `EngineInvariants`, `EngineTheorems` | indicators, SBOMs and incidents; the engine as a state machine in which each handler is one step; what each step does to the stored records and the log; its invariants; what follows for whole runs |
| `Store`, `Server` | the in-memory store and the handlers as classes, every handler proved to be a step of that machine |
| `Listing` | filtered incident listing in both storage backends |
| `DependencyGraph`, `CatalogSort`, `CatalogEdges`, `CatalogSync`, `CatalogPasses` | Kahn's algorithm with a sorted ready list, what makes one entity depend on another, the push memo of the catalog sync, and what its ticks do to each component |
| `Bus`, `Sse`, `EventStream`, `ConsumerView` | the event bus as a machine of interleaved steps, the stream writer and reader, the three put together, and what a consumer makes of the engine's events |
| `Wire`, `WireLayout` | the length-prefixed protocol between the Go client and the Rust sidecar, and its bytes one by one |
| `Scheduler` | stalest-first refresh batches |
| `Gosum`, `GosumText`, `GosumParity` | the Go and the Rust go.sum parser, what they read in a text, and that they agree |
| `VersionJump`, `VersionNumbers`, `Backoff` | the version-jump detector, its alarms in version numbers, and retry delays, in wrapping 64-bit arithmetic |
| `Ordering`, `Text`, `Scanner`, `Int64` | orders and sorting, ASCII text, line scanning, two's-complement integers |

Go's `sort.Slice` and map iteration promise no order among equals, so the
methods that stand for them promise none either; Rust's `sort_by` is stable, and
the method that stands for it is proved to be. Semver parsing and checking,
SHA-256, JSON encoding, lockfile parsers other than go.sum and all network
behaviour are parameters that every theorem quantifies over. Identifiers are
any unused value, times are integers, and every clock reading is an input.

## Where the code departs from what one would expect

Each of these is a theorem below, with the exact condition.

- An IoC for a package version or range with the wildcard (empty) ecosystem, or
  an anomaly ref that ends at its colon, is matched when an SBOM arrives but
  never found by the indexed forward match, so arrival order decides
  (`IndexAgreesIff`, `UnindexedArrivalOrderMatters`).
- Incidents raised through `iocforward.Submit` without a bus cannot be rebuilt
  from the event log (`EventsRebuildIncidentsIff`).
- A tick leaves the sync's memo no longer describing the engine exactly when a
  push of a component the memo knows is lost after the engine applied it; the
  next revert of that component is then skipped (`SoundAfterTickIff`,
  `RevertIsMissed`).
- `topoSortComponents` counts duplicated refs as cycles (`CyclesZeroIff`), and no
  dependency target can name a component whose ref has an upper-case letter
  (`OwnRefResolvesIff`).
- The comment in `contentHash` promises that reshuffled keys are no change; the
  hash runs over the annotations in their own order, so any reordering of them
  is pushed again (`ReorderedAnnotationsArePushedIff`,
  `LaterTickSkipsUnchanged`).
- Dependencies are pushed before dependents, but a dependency that fails to land
  does not hold its dependents back (`DependenciesLandFirst`).
- A batch of packages that keep failing starves every package behind it
  (`Starvation`); with fewer failing packages than places nothing starves
  (`NoStarvation`, `RefreshedIff`).
- The Rust encoders do not check the frame cap, so a larger reply is lost
  (`ReplyArrivesIff`).
- When one replacement gives two go.sum versions the same name and version, Rust
  lists the rows in key order (`RustOrderDetermined`), while the contract of Go's
  `sort.Slice` leaves the order of such rows open (`GoOrderDeterminedIff`,
  `Parity`); the library's sort itself is deterministic on a given input.
- A stream reads back as its events exactly when every event is clean, that is,
  has no line feed and no final carriage return in a field and not both type and
  data empty, and fits the scanner (`RoundTripIff`). Indicator ids, which
  `ioc.matched` events carry as their stream id
  (`engine/internal/domain/events.go:63`), are chosen by the client and not
  checked for line feeds (`engine/internal/api/handlers_ioc.go:92`), so nothing
  in the engine ensures that condition.
- A repeated version in another spelling leaves the version-jump verdict alone but
  can change the spelling it reports (`NoiseIsHarmless`, `RepetitionCanRespell`).
- From a historical jump of 2^62 on, doubling wraps and the version-jump
  detector fires on any jump of 2 or more (`UnusualMeansDoublingIff`,
  `OlderHistoryOnlyCalmsIff`).
- The backoff shift can wrap to a small positive delay for large base and cap
  (`DelayAlwaysExactIff`, `DelayCanUndershoot`).
- A Retry-After beyond the int64 range of nanoseconds can turn into no delay
  (`RetryAfterHonouredIff`), and `Get` also sleeps after its last failing
  attempt (`Backoff.Get`).
- Postgres treats "no limit" as 2^31 rows, the memory store does not
  (`BackendsAgreeIff`).

Where code and prose disagree the model follows the code. `README.md:172` says
`dismissed` is reachable from every non-terminal state;
`engine/internal/domain/incident.go:60` lets `remediating` go only to `closed`.
The comment at `engine/anomaly/versionjump/detector.go:165-169` offers two
alternative tests; the code requires both.

## Model

| member | source | states |
|---|---|---|
| `DependencyGraph.EmittedIffNoCycle` | backstage/plugins/rampart-backend/src/service/catalogSync.ts:246-301 | any complete valid order of a graph holds a node if and only if no walk along dependencies from it reaches a cycle |
| `DependencyGraph.LexicographicallyLeast` | backstage/plugins/rampart-backend/src/service/catalogSync.ts:271-289 | emitting the least ready node each time gives the lexicographically least of all valid orders of the same nodes |
| `DependencyGraph.KahnOrderUnique` | backstage/plugins/rampart-backend/src/service/catalogSync.ts:271-289 | a graph has only one such order |
| `CatalogSort.CollectDependencies` | backstage/plugins/rampart-backend/src/service/catalogSync.ts:310-328 | the normalised targets of dependsOn and of the dependsOn relations, nothing else |
| `CatalogSort.IndexByRef` | backstage/plugins/rampart-backend/src/service/catalogSync.ts:250-253 | every ref maps to the last entity that carries it |
| `CatalogSort.BuildEdges` | backstage/plugins/rampart-backend/src/service/catalogSync.ts:255-269 | the edges are exactly the dependencies that name a ref of the catalog, and the reverse edges are their transpose |
| `CatalogSort.AddEdges` | backstage/plugins/rampart-backend/src/service/catalogSync.ts:264-268 | one entity's in-catalog targets are added in both directions and nothing else changes |
| `CatalogSort.InitialReady` | backstage/plugins/rampart-backend/src/service/catalogSync.ts:271-275 | the refs without dependencies, ascending |
| `CatalogSort.ReleaseDependents` | backstage/plugins/rampart-backend/src/service/catalogSync.ts:281-288 | the emitted ref is struck from all its dependents; the ready list stays ascending and gains exactly those left with none |
| `CatalogSort.EmitAll` | backstage/plugins/rampart-backend/src/service/catalogSync.ts:271-289 | the loop ends with a valid, greedy order, the remaining dependencies of every ref and nothing ready |
| `CatalogSort.TopoSortComponents` | backstage/plugins/rampart-backend/src/service/catalogSync.ts:246-301 | emitted are exactly the refs that reach no cycle, once, each after its dependencies, in the least such order; leftovers are exactly those that reach one; the cycle count also counts duplicated refs |
| `CatalogSort.OrderIgnoresListing` | backstage/plugins/rampart-backend/src/service/catalogSync.ts:246-301 | two listings of the same entities give the same graph and the same order |
| `CatalogSort.CyclesZeroIff` | backstage/plugins/rampart-backend/src/service/catalogSync.ts:291-300 | the reported count is zero if and only if refs are distinct and none reaches a cycle |
| `CatalogSort.OwnRefResolvesIff` | backstage/plugins/rampart-backend/src/service/catalogSync.ts:303-328 | some dependency target names an entity if and only if its ref is lower case; any other entity is nobody's dependency in the graph |
| `CatalogEdges.NamesIff` | backstage/plugins/rampart-backend/src/service/catalogSync.ts:303-328 | for an entity whose kind has no colon and whose namespace has no slash: a dependency text resolves to it if and only if its lower-case form is `kind:namespace/name` of the entity, or is colon-free and the name of a component of the default namespace |
| `CatalogEdges.ShortNameIff` | backstage/plugins/rampart-backend/src/service/catalogSync.ts:321-328 | a colon-free text means the component of the default namespace with that name in lower case, and nothing else |
| `CatalogEdges.EdgeIff` | backstage/plugins/rampart-backend/src/service/catalogSync.ts:255-269 | one ref depends on another in the graph if and only if some entity with the first ref lists, in dependsOn or in a relation of that type, a text that names the second |
| `CatalogEdges.ShortNameResolves` | backstage/plugins/rampart-backend/src/service/catalogSync.ts:310-328 | a listed lower-case name of a default-namespace component gives the edge |
| `CatalogEdges.FullRefResolves` | backstage/plugins/rampart-backend/src/service/catalogSync.ts:310-328 | a listed full ref gives the edge, in any case |
| `CatalogEdges.NamedComesFirst` | backstage/plugins/rampart-backend/src/service/catalogSync.ts:246-301 | in the order, whatever an emitted entity lists and names comes before it |
| `CatalogSync.Sync.RunOnce` | backstage/plugins/rampart-backend/src/service/catalogSync.ts:128-171 | a tick pushes the sorted catalog entity by entity, with these counters, memo and engine content; without a catalog client it does nothing |
| `CatalogSync.Sync.PushAll` | backstage/plugins/rampart-backend/src/service/catalogSync.ts:144-166 | the loop applies one skip, push or failure per entity, in order |
| `CatalogSync.Sync.PushOne` | backstage/plugins/rampart-backend/src/service/catalogSync.ts:173-190 | a refusal drops the memo entry; a lost answer leaves the memo and may or may not have changed the engine |
| `CatalogSync.CountersAddUp` | backstage/plugins/rampart-backend/src/service/catalogSync.ts:144-166 | pushed + skipped + failed grows by exactly the emitted count |
| `CatalogSync.IterationMeans` | backstage/plugins/rampart-backend/src/service/catalogSync.ts:144-235 | in the entity's own fields: what is no named component fails; a component memoised under its hash is skipped; an accepted push stores it and its hash; a refusal drops the memo entry; a lost answer leaves the memo; nothing else changes |
| `CatalogSync.SoundAfterOneIff` | backstage/plugins/rampart-backend/src/service/catalogSync.ts:144-190 | an iteration keeps every memo entry equal to the hash of what the engine holds if and only if it does not lose the answer to an applied push of a known component |
| `CatalogPasses.SoundAfterTickIff` | backstage/plugins/rampart-backend/src/service/catalogSync.ts:128-190 | from a sound memo, a whole tick leaves a sound memo if and only if no emitted entity loses track, seen from the world before the tick |
| `CatalogSync.RevertIsMissed` | backstage/plugins/rampart-backend/src/service/catalogSync.ts:151-164 | after such a loss, going back to the old content is skipped while the engine keeps the new one |
| `CatalogSync.MemoAlwaysSound` | backstage/plugins/rampart-backend/src/service/catalogSync.ts:128-190 | in every run in which failed pushes leave the engine alone, the memo describes the engine after every tick |
| `CatalogSync.NoFailureSettles` | backstage/plugins/rampart-backend/src/service/catalogSync.ts:144-166 | after a pass without failures every pushed entity is in the memo under its current hash |
| `CatalogSync.PermutedCatalogIsSame` | backstage/plugins/rampart-backend/src/service/catalogSync.ts:246-255 | with distinct refs, a reordered listing means the same catalog |
| `CatalogSync.SecondTickIsQuiet` | backstage/plugins/rampart-backend/src/service/catalogSync.ts:128-171 | after a failure-free tick, a tick over the same catalog, annotation order included, pushes nothing, fails nothing and changes nothing, whatever the network does |
| `CatalogSync.EngineMirrorsCatalog` | backstage/plugins/rampart-backend/src/service/catalogSync.ts:128-235 | if no catalog component collides in hash with something else the engine holds, a failure-free tick from a sound memo, over any network, leaves in the engine, for every cycle-free entity, its ref, kind, namespace, name, owner, system, lifecycle, tags and annotations |
| `CatalogSync.EngineRefIdentifies` | backstage/plugins/rampart-backend/src/service/catalogSync.ts:216-235 | two components with one engine ref have one catalog ref |
| `CatalogPasses.LaterTickSkipsUnchanged` | backstage/plugins/rampart-backend/src/service/catalogSync.ts:128-171 | after a failure-free tick, in a tick over a catalog with the same graph each emitted component is skipped at its turn if and only if its content hash is unchanged; the counters say how many |
| `CatalogPasses.ReorderedAnnotationsArePushedIff` | backstage/plugins/rampart-backend/src/service/catalogSync.ts:330-344 | with a serialisation that loses nothing and no collision of the two digests, a component with the same annotations is pushed again if and only if they come in another order |
| `CatalogPasses.InEngineIffLands` | backstage/plugins/rampart-backend/src/service/catalogSync.ts:144-166 | after any number of iterations an entity that had its turn is in the engine if and only if it was there before the tick or was not memoised and its push was applied |
| `CatalogPasses.DependenciesLandFirst` | backstage/plugins/rampart-backend/src/service/catalogSync.ts:128-171 | at every point of a tick from an entity's turn on, all its in-catalog dependencies are in the engine if and only if each was there before or gets pushed in this tick |
| `CatalogPasses.EngineSeesNoDanglingDependency` | backstage/plugins/rampart-backend/src/service/catalogSync.ts:72-82 | with a sound memo and no failing push, every emitted component finds all its in-catalog dependencies in the engine when its turn comes |
| `Matcher.Evaluate` | engine/internal/matcher/matcher.go:48-71 | matched if and only if the ecosystems meet, or the indicator names none, and some package fires; the packages returned are, in order, all that fire: same name and version, same name and a version in the range, or ecosystem:name equal to the anomaly ref |
| `Matcher.EvaluateAnomaly` | engine/internal/matcher/matcher.go:78-90 | the packages whose ecosystem:name is the anomaly ref, by fields |
| `Matcher.EvaluateVersion` | engine/internal/matcher/matcher.go:92-104 | the packages with the exact name and version, by fields |
| `Matcher.EvaluateRange` | engine/internal/matcher/matcher.go:106-134 | the packages of that name whose version parses and satisfies the constraint, none if the constraint does not parse, by fields |
| `Matcher.SplitAtColon` | engine/internal/api/matching.go:37-46 | splitting ecosystem:name at the first colon gives back both, for a colon-free ecosystem |
| `Matcher.IndexedIsSound` | engine/internal/api/matching.go:57-75 | whatever the key lookup matches, `Evaluate` matches |
| `Matcher.IndexedIsComplete` | engine/internal/api/matching.go:25-75 | whatever `Evaluate` matches the key lookup finds, unless the indicator is unindexed |
| `Matcher.IndexAgreesIff` | engine/internal/api/matching.go:25-75 | on a parser-produced SBOM the two differ if and only if the indicator is unindexed and matches |
| `Domain.TransitionAdvances` | engine/internal/domain/incident.go:56-98 | a transition succeeds if and only if it is a self-loop, one rank forward, or a dismissal from a non-terminal state other than remediating; a self-loop changes nothing, any other advances and stamps the time |
| `Domain.LifeCycle` | engine/internal/domain/incident.go:56-81 | a state may go to itself, along pending, triaged, acknowledged, remediating, closed, and to dismissed from the first three; nowhere else |
| `Domain.EvolvesTransitive` | engine/internal/domain/incident.go:85-98 | "is a later version of" composes |
| `EngineInvariants.OpensKeepsUnique` | engine/internal/api/matching.go:96-146 | opening incidents for unopened pairs keeps at most one open incident per indicator and component |
| `EngineInvariants.StepExtends` | engine/internal/api/matching.go:96-146 | every step only adds incidents and lets existing ones evolve |
| `EngineInvariants.StepKeepsCovered` | engine/internal/api/matching.go:84-208 | every step keeps: a stored indicator that matches a stored SBOM has an incident for its component, unless unindexed |
| `EngineInvariants.StepKeepsJustified` | engine/internal/api/matching.go:84-208 | every step keeps: every incident stems from a body once stored under its indicator's id that matches a stored SBOM of its component |
| `EngineInvariants.RunKeepsInv` | engine/internal/api/matching.go:84-208 | all invariants hold in every state of every run |
| `EngineMeaning.SubmitSBOMMeans` | engine/internal/api/handlers_sbom.go:18-90 | the SBOM is stored; every stored indicator that matches it has an open incident on the component afterwards, every new incident is one of these, pending, stamped and with a fresh id; the log tells the SBOM first and every matched indicator |
| `EngineMeaning.SubmitIoCMeans` | engine/internal/api/handlers_ioc.go:19-62 | the same for an indicator, over the components of the stored SBOMs it matches, unless it is unindexed |
| `EngineMeaning.ForwardIoCMeans` | engine/internal/iocforward/iocforward.go:40-161 | the same for the scanning path, unindexed indicators included, told only with a bus |
| `EngineMeaning.MoveIncidentMeans` | engine/internal/api/handlers_incident.go:151-194 | one incident changes state and time, nothing else, and one event tells both states; a self-loop changes and tells nothing |
| `EngineMeaning.AddRemediationMeans` | engine/internal/api/handlers_remediation.go:20-71 | one incident gains the remediation at the end of its log and one event tells it |
| `EngineMeaning.AcceptableIff` | engine/internal/domain/ioc.go:78-112 | an indicator is accepted if and only if it has exactly one body, that of its kind, and for a range a constraint that parses |
| `EngineTheorems.ArrivalOrderDoesNotMatter` | engine/internal/api/matching.go:84-208 | in every state of every run, a stored matching indicator and SBOM have an incident, whichever came first and whatever was stored under the id before |
| `EngineTheorems.UnindexedArrivalOrderMatters` | engine/internal/api/matching.go:25-49 | for every unindexed indicator and matching SBOM, one order of arrival opens an incident and the other none |
| `EngineTheorems.IndexedListIsScanList` | engine/internal/api/matching.go:193-208 | in a well-shaped state the indexed forward match and the full scan list the same refs in the same order |
| `EngineTheorems.IndexedRefsAgree` | engine/internal/iocforward/iocforward.go:72-99 | the indexed match finds the components the scan finds, and none for an unindexed indicator |
| `EngineTheorems.CacheAgreesWithLive` | engine/internal/api/handlers_incident.go:224-275 | in every run the cached blast radius contains the live one for the stored body, and equals it if the id only ever had that body and is indexed |
| `EngineTheorems.BlastIff` | engine/internal/api/handlers_incident.go:224-275 | a queried indicator contributes, if its id is stored, the components of that id's incidents, and otherwise, unless unindexed, the components of the stored SBOMs it matches; nothing else |
| `EngineTheorems.IncidentsEvolve` | engine/internal/domain/incident.go:56-98 | between any two points of a run an incident keeps indicator, opening time and snapshot, its remediation log grows only at the end, its state only advances and terminal states absorb |
| `EngineTheorems.OneOpenIncidentPerPair` | engine/internal/api/matching.go:96-146 | in every state of every run two open incidents of one indicator on one component are the same |
| `EngineTheorems.AtMostFourMoves` | engine/internal/domain/incident.go:56-98 | in every run no incident is moved more than four times |
| `EngineTheorems.FourMovePlaces` | engine/internal/domain/incident.go:56-98 | the same on the log itself: at most four of its places tell a change of that incident's state |
| `EngineTheorems.StepReplays` | engine/internal/api/handlers_incident.go:168-192 | every step's events turn the replayed view of the old incidents into that of the new ones |
| `EngineTheorems.EventsRebuildIncidentsIff` | engine/internal/api/matching.go:116-145 | in every state of every run, folding the published events rebuilds every incident's indicator, state, both times, snapshot and ordered remediations if and only if none was raised without a bus |
| `Store.Store.ListComponents` | engine/internal/storage/memory/memory.go:87-96 | every stored component once, strictly ascending by ref |
| `Store.Store.ListSBOMsByComponent` | engine/internal/storage/memory/memory.go:116-127 | exactly the component's SBOMs, oldest first, without repetitions when SBOMs are filed under their ids |
| `Store.Store.ListSBOMPackages` | engine/internal/storage/memory/memory.go:129-154 | one row per package of that ecosystem and name, as a multiset, ordered by ref and version |
| `Store.Store.ListIoCs` | engine/internal/storage/memory/memory.go:174-183 | every stored indicator once, by publication time |
| `Store.Store.ListIncidents` | engine/internal/storage/memory/memory.go:203-212 | every stored incident once, by opening time |
| `Store.Store.MatchedComponentRefsByIoC` | engine/internal/storage/memory/memory.go:214-233 | the distinct components of the indicator's incidents, ascending |
| `Store.Store.AppendRemediation` | engine/internal/storage/memory/memory.go:355-365 | the remediation goes to the end of the incident's log, or the incident is unknown and nothing changes |
| `Server.MatchPackagesAgainstIoC` | engine/internal/api/matching.go:57-75 | the distinct refs of the matched rows, ascending when the rows are |
| `Server.ForwardMatch` | engine/internal/api/matching.go:193-208 | the components the key lookup finds, ascending, one pair each |
| `Server.RetroactiveMatch` | engine/internal/api/matching.go:159-181 | one pair for every stored indicator that matches the SBOM, and their ids once each |
| `Server.ScanForwardMatch` | engine/internal/iocforward/iocforward.go:72-99 | the registered components with a matching SBOM, ascending, one pair each |
| `Server.IndexOpen` | engine/internal/api/matching.go:104-114 | the index holds a pair if and only if it has an open incident |
| `Server.Server.OpenIncidentsForMatches` | engine/internal/api/matching.go:96-146 | one new incident with a fresh id per distinct pair without an open one, stored and, with a bus, announced in order |
| `Server.Server.RaiseUnopened` | engine/internal/iocforward/iocforward.go:113-161 | the same for the loop both copies share |
| `Server.Server.UpsertComponent` | engine/internal/api/handlers_component.go:17-56 | an empty or malformed ref is refused and changes nothing; otherwise the reply tells a new component from an update, and the registration is a step of the machine |
| `Server.Server.SubmitSBOM` | engine/internal/api/handlers_sbom.go:18-90 | the reply for every input; a rejected request changes nothing; an accepted one is a step that stores, matches, opens and publishes in order, with each clock reading where the handler takes it |
| `Server.Server.SubmitIoC` | engine/internal/api/handlers_ioc.go:19-62 | the same for an indicator, accepted if and only if it is valid and its constraint parses |
| `Server.Server.ForwardSubmit` | engine/internal/iocforward/iocforward.go:40-61 | is a step, with or without a bus, and returns the matched refs |
| `Server.Server.TransitionIncident` | engine/internal/api/handlers_incident.go:151-194 | unknown, conflicting and accepted requests; only an accepted one changes anything, and is a step |
| `Server.Server.PostRemediation` | engine/internal/api/handlers_remediation.go:20-71 | unknown, invalid and accepted requests; an accepted one is a step and defaults the execution time |
| `Server.Server.BlastRadius` | engine/internal/api/handlers_incident.go:213-280 | refused if and only if the list is empty or holds an invalid indicator; otherwise a ref is listed if and only if some queried indicator with a stored id has an incident on it, or some other, indexed one matches a stored SBOM of it; ascending |
| `Listing.ListIncidentsFiltered` | engine/internal/storage/memory/memory.go:235-275 | the newest incidents satisfying all filters, newest first, at most the limit, with no omitted match newer than a returned one |
| `Listing.Select` | engine/internal/storage/memory/memory.go:235-260 | the two filter passes keep exactly the incidents that satisfy every filter, once each |
| `Listing.SatisfiesMeans` | engine/internal/storage/memory/memory.go:279-350 | an incident satisfies a filter if and only if its state, opening time and indicator's ecosystem are as asked, its id, indicator id or some ref contains the searched text in any case, and some affected component has the owner; an unset dimension admits all |
| `Listing.ListingMeans` | engine/internal/storage/memory/memory.go:262-275 | a listing holds no incident twice, is newest first, leaves out none while there is room and never one newer than one listed |
| `Listing.CachedEcosystem` | engine/internal/storage/postgres/storage.go:541-564 | the cached test equals the direct one, and the cache stays true to the table |
| `Listing.CachedOwner` | engine/internal/storage/postgres/storage.go:566-589 | the same for owners |
| `Listing.ListIncidentsPostgres` | engine/internal/storage/postgres/storage.go:476-539 | filtering sorted rows and stopping at the limit gives the newest satisfying rows |
| `Listing.BackendsAgreeIff` | engine/internal/storage/postgres/storage.go:476-539 | without a limit both backends list the same incidents, remediations aside, if and only if at most 2^31 match |
| `Listing.BackendsAgreeUnderLimit` | engine/internal/storage/memory/memory.go:235-275 | with a limit that does not bind they list the same incidents |
| `Bus.StepKeepsInv` | engine/internal/events/bus.go:52-96 | every interleaved step keeps the bus invariant |
| `Bus.SubscriberSeesSlice` | engine/internal/events/bus.go:52-96 | in every interleaving, received plus buffered is the log from the subscription on without gaps or repetitions, up to its end while live and idle; capacity is respected and nothing is closed twice or sent to after closing |
| `Bus.SubscriptionsAge` | engine/internal/events/bus.go:52-78 | a subscription's start never moves, what was received only grows, and a closed subscription stays closed and is served nothing more |
| `Bus.PublishDropsIffFull` | engine/internal/events/bus.go:83-96 | a whole publish, whatever receives interleave with it, visits every subscriber exactly once and drops it if and only if its buffer is full at that moment |
| `Bus.Bus.constructor` | engine/internal/events/bus.go:34-42 | a size below one means 256 |
| `Bus.Bus.Subscribe` | engine/internal/events/bus.go:52-58 | is a step of the machine: a fresh id with an empty open channel, nothing else changed |
| `Bus.Bus.Cancel` | engine/internal/events/bus.go:60-70 | is a step; afterwards the subscription is gone and its channel closed with what it holds, however often it is called; nothing else changes |
| `Bus.Bus.Receive` | engine/internal/events/bus.go:52-58 | takes the oldest waiting event, or finds the buffer empty and changes nothing |
| `Bus.Bus.Publish` | engine/internal/events/bus.go:83-96 | visits every subscriber through steps of the machine and ends idle; the subscribers that had room have the event at the end of their channel, all others are gone and closed with what they hold |
| `Sse.Writer.WriteEvent` | engine/internal/api/sse.go:42-60 | the id line if there is an id, the event line, the data line and an empty line |
| `Sse.Writer.WriteComment` | engine/internal/api/sse.go:65-71 | a comment line and an empty line |
| `Sse.StreamTextSnoc` | engine/internal/api/sse.go:42-71 | each item appends its literal text: the id line unless empty, the event line, the data line, an empty line; or the comment and an empty line |
| `EventStream.EventIsWritten` | engine/internal/domain/events.go:13-64 | the type name and aggregate id every event goes out under |
| `Sse.Writer.StreamLoop` | engine/internal/api/sse.go:76-107 | the response body is the lines of all items in order |
| `Sse.ReadStream` | integrations/slack-notifier/internal/receiver/sse.go:94-122 | the frames assembled from the scanned lines, and an error if and only if a line was too long or the connection broke |
| `Sse.RoundTrip` | integrations/slack-notifier/internal/receiver/sse.go:94-122 | any sequence of sendable events and heartbeats reads back as exactly the events |
| `Sse.RoundTripIff` | integrations/slack-notifier/internal/receiver/sse.go:94-122 | a stream of any events and of heartbeats that fit a line reads back as exactly its events if and only if every event is clean and fits |
| `Sse.EventSurvivesIff` | engine/internal/api/sse.go:42-60 | a single event, any event, reads back as itself if and only if its fields hold no line feed and end in no carriage return, type or data is set, and its lines fit the scanner |
| `Sse.CutStreamYieldsPrefix` | integrations/slack-notifier/internal/receiver/sse.go:94-122 | cut anywhere, the stream reads back as a prefix of the events, with an error if and only if the connection broke |
| `EventStream.ConsumerSeesPublishedPrefix` | engine/internal/api/sse.go:76-107 | whatever the bus does and wherever the connection breaks, a consumer handles a prefix of what was published since it subscribed |
| `ConsumerView.PrefixIsSeen` | engine/internal/api/matching.go:116-145 | folding any prefix of the published events, even one that ends within a step, gives each incident a view it had in some state of the run |
| `ConsumerView.ConsumerFoldsSeenViews` | engine/internal/domain/events.go:13-64 | engine, bus and a connection cut anywhere: folding the events a consumer has handled since it subscribed gives each incident in the fold a view it had in the engine at some point of the run |
| `Scanner.NextLine` | integrations/slack-notifier/internal/receiver/sse.go:95-99 | one scanner call peels one line off the scan |
| `Scanner.ScanFailsIff` | engine/sbom/gomod/parser.go:128-166 | the scanner gives up if and only if some line is longer than its buffer |
| `Wire.GoEncode` | engine/internal/ingestion/native/client.go:77-174 | a frame is built if and only if the body fits the cap, and is the length-prefixed body |
| `Wire.GetPut` | native/crates/rampart-native/src/protocol.rs:122-132 | reading back a written length gives it modulo 2^32 |
| `Wire.PutGet` | native/crates/rampart-native/src/protocol.rs:122-132 | writing a read length gives back its bytes |
| `Wire.DecodeEncoded` | native/crates/rampart-native/src/protocol.rs:74-120 | decoding undoes encoding for every request |
| `Wire.EncodeDecoded` | native/crates/rampart-native/src/protocol.rs:74-120 | re-encoding any accepted body gives back its bytes |
| `Wire.ReadFrameOf` | native/crates/rampart-native/src/ipc.rs:140-162 | a frame within the cap is read back, leaving what follows it |
| `Wire.ReadAllOf` | native/crates/rampart-native/src/ipc.rs:112-162 | concatenated frames read back as the same bodies |
| `Wire.RustEncodesBody` | native/crates/rampart-native/src/protocol.rs:135-166 | the three encoders produce the length-prefixed reply body |
| `Wire.DecodeErrorFrameOf` | engine/internal/ingestion/native/client.go:247-266 | decoding undoes error frames within the cap, with no 32-bit wrap in the slice bounds |
| `Wire.ReplyArrivesIff` | engine/internal/ingestion/native/client.go:177-266 | the client gets the server's reply back if and only if it fits the cap |
| `Wire.HandleConnection` | native/crates/rampart-native/src/ipc.rs:112-136 | one reply per well-formed frame, in order, until the stream closes or breaks the protocol |
| `Wire.ExchangeIsFaithful` | native/crates/rampart-native/src/ipc.rs:178-234 | for every request the client sends, it gets the parser's answer to that request if and only if the answer fits the cap |
| `Wire.ErrorClassSurvives` | engine/internal/ingestion/native/client.go:268-279 | the code the server gives a parse error is classified as that error |
| `WireLayout.RequestLayout` | engine/internal/ingestion/native/client.go:77-174 | byte by byte: opcodes 0x01, 0x06, 0x07 and 0xFF, big-endian lengths, contents |
| `WireLayout.DecodesIff` | native/crates/rampart-native/src/protocol.rs:74-120 | a body is read as a request if and only if it is that request's encoding |
| `WireLayout.RejectedAs` | native/crates/rampart-native/src/protocol.rs:74-132 | which error every other body gets: empty, unknown opcode, fields that end early, bytes left over |
| `WireLayout.ReplyLayout` | native/crates/rampart-native/src/protocol.rs:135-166 | byte by byte: frame length, opcodes 0x02, 0x03 and 0xFE, big-endian lengths, contents |
| `WireLayout.FramesAreRead` | native/crates/rampart-native/src/ipc.rs:140-162 | a frame is read if and only if its length is between 1 and 104857600 and its bytes are there; fewer than four bytes are a close to the server and an error to the client |
| `WireLayout.ErrorCodes` | engine/internal/ingestion/native/client.go:268-279 | the three codes, and that the client maps a code to an error if and only if it is that error's code |
| `WireLayout.ExchangeMeans` | native/crates/rampart-native/src/ipc.rs:178-234 | a ping gets a pong, a parsed lockfile its SBOM, a rejected one its message under a code the client maps back to the parser's error |
| `Scheduler.NewScheduler` | engine/publisher/scheduler.go:51-83 | refused if and only if there is no ingestor or a key without a final colon; non-positive interval and batch size become an hour and 50 |
| `Scheduler.Scheduler.ListPackagesNeedingRefresh` | engine/internal/storage/memory/memory.go:467-502 | the stalest packages, stalest first, at most the limit if it is positive and all of them otherwise, leaving out nothing staler than what is listed |
| `Scheduler.Scheduler.Dispatch` | engine/publisher/scheduler.go:168-175 | some registered prefix of the ref if and only if there is one |
| `Scheduler.Scheduler.RunTick` | engine/publisher/scheduler.go:113-164 | exactly the listed packages whose snapshot is fetched and saved gain one, and the four counts are the tally of the listed packages' outcomes |
| `Scheduler.TallyAddsUp` | engine/publisher/scheduler.go:125-163 | the four counts add up to the batch; the first three are the numbers of handled packages that gained a snapshot, were not found and were rate-limited |
| `Scheduler.HandledIff` | engine/publisher/scheduler.go:168-175 | a ref is handled if and only if some ingestor's key is a prefix of it |
| `Scheduler.BatchMeans` | engine/internal/storage/memory/memory.go:467-502 | in snapshot times: only packages all of whose snapshots precede the cutoff, all of them while there is room, and none with a snapshot later than every snapshot of a package listed after it or left out |
| `Scheduler.RefreshedMeans` | engine/publisher/scheduler.go:125-160 | a listed package that an ingestor handles and fetches gains exactly that snapshot at its end, and no other package changes |
| `Scheduler.TickAdvances` | engine/publisher/scheduler.go:113-164 | a tick that passes over a stale package moves the healthy part of a full batch behind it, and none ahead |
| `Scheduler.QueueShrinks` | engine/publisher/scheduler.go:113-164 | while a package waits, the healthy packages ahead of it shrink by the free places of every tick |
| `Scheduler.NoStarvation` | engine/publisher/scheduler.go:113-164 | with fewer failing packages than places, a stale package is refreshed once the free places of the ticks reach the healthy packages at least as stale as itself; without failures, ceil(m / batch) ticks |
| `Scheduler.Starvation` | engine/publisher/scheduler.go:113-164 | a batch of staler packages that always fail keeps every later package from ever being refreshed |
| `Scheduler.RefreshedIff` | engine/publisher/scheduler.go:113-164 | if nothing ties with a package and each package ahead of it fails always or never, it is refreshed in a long enough run if and only if fewer than a batch of those always fail |
| `Gosum.GoParseGosum` | engine/sbom/gomod/parser.go:128-166 | the entries of all lines, refused if one is malformed or too long |
| `Gosum.RustParseGosum` | native/crates/rampart-native/src/parsers/gomod.rs:89-128 | the entries of all lines, refused if one is malformed |
| `Gosum.GoParseGomod` | engine/sbom/gomod/parser.go:168-205 | the replace directives of all lines, refused if one is too long |
| `Gosum.RustParseGomod` | native/crates/rampart-native/src/parsers/gomod.rs:130-164 | the replace directives of all lines |
| `Gosum.ScannersAgree` | native/crates/rampart-native/src/parsers/gomod.rs:89-100 | both line splitters give the same lines up to a final carriage return, on text the Go scanner can hold |
| `Gosum.DirectivesAgree` | native/crates/rampart-native/src/parsers/gomod.rs:176-202 | both directive parsers accept the same lines and mean the same by them |
| `Gosum.ModLinesAgree` | native/crates/rampart-native/src/parsers/gomod.rs:139-162 | the two treatments of a go.mod line, each as its own code does it, agree |
| `Gosum.SumLinesAgree` | native/crates/rampart-native/src/parsers/gomod.rs:95-126 | the two readings of a go.sum line, each as its own code does it, agree |
| `Gosum.EntriesAgree` | engine/sbom/gomod/parser.go:128-166 | both line readers give the same entries on lines that differ in a final carriage return |
| `Gosum.ReplacesAgree` | engine/sbom/gomod/parser.go:168-236 | both go.mod readers give the same directives on such lines, block state included |
| `GosumText.FieldsOfSpaced` | engine/sbom/gomod/parser.go:128-150 | words with gaps of blanks around them are the fields of the text |
| `GosumText.EveryText` | engine/sbom/gomod/parser.go:128-150 | and every text is of that form |
| `GosumText.TrimOf` | engine/sbom/gomod/parser.go:128-150 | trimming takes the outer blanks and nothing else |
| `GosumText.SumLineMeans` | engine/sbom/gomod/parser.go:128-166 | for every line, in its words: none is skipped, three of which the last starts with h1: are the entry of module and version, "/go.mod" stripped and then not primary, anything else is refused; in both languages |
| `GosumText.FileReads` | native/crates/rampart-native/src/parsers/gomod.rs:89-128 | a file of ordinary entries, one to a line, is read as those entries by both |
| `GosumText.PlainRows` | engine/sbom/gomod/parser.go:50-126 | without a go.mod, the rows of such a file are its modules and versions with the chosen hash, in both |
| `GosumText.DirectiveMeans` | engine/sbom/gomod/parser.go:217-236 | OLD [OLDVER] => NEW [NEWVER] replaces the first word left of the arrow by what the words right of it stand for; without a word on either side it is no directive; in both languages |
| `GosumText.NoArrow` | native/crates/rampart-native/src/parsers/gomod.rs:176-202 | a text without an equals sign is no directive |
| `GosumText.CommentMeans` | engine/sbom/gomod/parser.go:207-215 | a comment runs from the first pair of slashes to the end of the line |
| `GosumText.ModLineMeans` | engine/sbom/gomod/parser.go:168-205 | outer blanks and comments aside, "replace (" opens a block, ")" closes it, and what starts otherwise changes nothing outside a block |
| `GosumText.BlockLineMeans` | engine/sbom/gomod/parser.go:182-193 | a directive inside a block sets its module's target |
| `GosumText.ReplaceLineMeans` | engine/sbom/gomod/parser.go:194-203 | outside a block it does so after the word replace |
| `GosumParity.GoDedup` | engine/sbom/gomod/parser.go:64-78 | every key gets the hash of its first primary line, else of its last line |
| `GosumParity.RustDedup` | native/crates/rampart-native/src/parsers/gomod.rs:39-49 | the same |
| `GosumParity.GoParse` | engine/sbom/gomod/parser.go:50-126 | accepted if and only if both files scan and go.sum is well formed; then the rows of all keys, replaced or dropped, by name and version |
| `GosumParity.RustParse` | native/crates/rampart-native/src/parsers/gomod.rs:35-78 | accepted if and only if go.sum is well formed; then the same rows by name and version, rows that tie in key order |
| `GosumParity.RowsCarryChosenHash` | engine/sbom/gomod/parser.go:64-111 | a row is present if and only if it is the image of some key with that key's chosen hash |
| `GosumParity.RowsMean` | engine/sbom/gomod/parser.go:79-111 | a row is present if and only if some entry's module and version, or the remote target that replaces them, are its name and version, with the chosen hash; a local target drops it |
| `GosumParity.FirstPrimaryWins` | engine/sbom/gomod/parser.go:64-78 | the chosen hash is that of the first primary entry of the key |
| `GosumParity.LastOtherwise` | engine/sbom/gomod/parser.go:64-78 | or else that of its last entry |
| `GosumParity.Parity` | native/crates/rampart-native/src/parsers/gomod.rs:35-78 | Go accepts if and only if Rust does and no line exceeds the scanner; then both give the same multiset of rows, Rust's order is one Go may give, and Go must give it if and only if no two different rows tie |
| `GosumParity.RustOrderDetermined` | native/crates/rampart-native/src/parsers/gomod.rs:70 | the stable sort over key order determines the result, ties or not |
| `GosumParity.GoOrderDeterminedIff` | engine/sbom/gomod/parser.go:113-118 | what the unstable sort may return is one list only if and only if no two different rows tie |
| `VersionJump.ExtractVersionsOldestFirst` | engine/anomaly/versionjump/detector.go:111-136 | the usable versions oldest first, consecutive repetitions removed |
| `VersionJump.Classify` | engine/anomaly/versionjump/detector.go:180-195 | the grade by number of zero jumps, history length and size |
| `VersionJump.MaxOrZero` | engine/anomaly/versionjump/detector.go:197-205 | the maximum of the jumps and zero |
| `VersionJump.Detect` | engine/anomaly/versionjump/detector.go:56-105 | the alarm of the extracted versions: both versions with their spelling, delta, maximum, count and confidence |
| `VersionNumbers.StepIff` | engine/anomaly/versionjump/detector.go:146-163 | for numbers below 2^62 the delta is the minor difference between two 0.x versions, 1 on leaving 0.x whatever the major, and the major difference otherwise |
| `VersionNumbers.AlarmMeans` | engine/anomaly/versionjump/detector.go:56-105 | for histories of any length: an alarm if and only if the newest step is at least 2 and more than twice every earlier one; it names the two versions, that step, and the largest earlier one |
| `VersionNumbers.ConfidenceMeans` | engine/anomaly/versionjump/detector.go:180-195 | which grade an alarm gets, by the number of standstills, the length of the history and the size of the step |
| `VersionNumbers.MinorJumpAlarms` | engine/anomaly/versionjump/detector.go:146-163 | two 0.x versions alarm if and only if the minor rises by two or more |
| `VersionNumbers.MajorJumpAlarms` | engine/anomaly/versionjump/detector.go:146-163 | from 1.0 on, if and only if the major does |
| `VersionNumbers.GoingStableIsQuiet` | engine/anomaly/versionjump/detector.go:146-163 | leaving 0.x never alarms, whatever came before |
| `VersionNumbers.OthersAreIgnored` | engine/anomaly/versionjump/detector.go:111-136 | a snapshot without a version, with an unparseable one or with a pre-release takes no part |
| `VersionNumbers.RepetitionIsIgnored` | engine/anomaly/versionjump/detector.go:111-136 | of two neighbouring snapshots of one release the older takes part |
| `VersionNumbers.ReleasesInOrder` | engine/anomaly/versionjump/detector.go:111-136 | releases of which no two neighbours are the same take part as they are, oldest first |
| `VersionJump.NoiseIsHarmless` | engine/anomaly/versionjump/detector.go:111-136 | inserting an unparseable, pre-release or repeated snapshot anywhere changes neither the firing nor the versions, delta, maximum, count and confidence; the reported spelling changes if and only if the snapshot takes the place of a reported version it spells differently |
| `VersionJump.RepetitionCanRespell` | engine/anomaly/versionjump/detector.go:82-96 | "v1.0.0" inserted before "1.0.0" and "4.0.0" changes the reported previous version |
| `VersionJump.OlderHistoryOnlyCalmsIff` | engine/anomaly/versionjump/detector.go:56-105 | for every history: older snapshots add no alarm, change neither versions nor delta and lower no confidence, if and only if, with two versions already there, they do not wrap the doubled maximum over a jump the shorter history explains, and, with fewer, the older history does not itself end in an unusual jump and the one newer version makes none from it |
| `VersionJump.OlderHistoryOnlyCalms` | engine/anomaly/versionjump/detector.go:56-105 | when no jump reaches 2^62, short histories are the only exception |
| `VersionJump.OlderHistoryKeepsSpelling` | engine/anomaly/versionjump/detector.go:82-96 | older snapshots leave the spelling of the newest version alone, and of the one before it once there are three |
| `VersionJump.OlderHistoryCanAlarm` | engine/anomaly/versionjump/detector.go:146-176 | versions 1, 2, 4 are quiet and alarm once 1 and 2^62 + 1 come before them |
| `VersionJump.UnusualMeansDoublingIff` | engine/anomaly/versionjump/detector.go:170-176 | the test means "at least 2 and more than twice the maximum" if and only if the maximum is below 2^62 or the delta below 2 |
| `Backoff.DelayExactIff` | engine/publisher/internal/httpx/httpx.go:158-164 | one attempt's delay is min(base * 2^attempt, max) if and only if the shift fits an int64 or wraps to something the cap replaces |
| `Backoff.DelayAlwaysExactIff` | engine/publisher/internal/httpx/httpx.go:158-164 | every attempt's delay is min(base * 2^attempt, max) if and only if the first 64 shifts are of that kind |
| `Backoff.DelaySaturates` | engine/publisher/internal/httpx/httpx.go:158-164 | a bound that needs no enumeration: the delay is min(base * 2^attempt, max) on every attempt when base * max fits an int64 |
| `Backoff.DelayCanUndershoot` | engine/publisher/internal/httpx/httpx.go:158-164 | base 5 and cap 2^62 + 1: attempt 62 is harmful and gives less |
| `Backoff.RetryAfterHonouredIff` | engine/publisher/internal/httpx/httpx.go:144-155 | a Retry-After is honoured up to the cap if and only if its nanoseconds fit an int64 or wrap to at least the cap |
| `Backoff.LongRetryAfterIsIgnored` | engine/publisher/internal/httpx/httpx.go:144-155 | 9223372037 seconds give a negative delay |
| `Backoff.Get` | engine/publisher/internal/httpx/httpx.go:61-140 | between one and maxRetries + 1 requests; all before the last met a transport error, 429 or a status of 500 and more, and so did the last only if no try was left; body, read failure, not found, rate limited, server failure or unexpected status by the last response; the sleep is the sum of the delays, at most the cap for each request; defaults of 3 tries, half a second and 30 seconds |
| `Backoff.SleepMeans` | engine/publisher/internal/httpx/httpx.go:144-182 | where nothing wraps, a 429 with a Retry-After sleeps those seconds, anything else base * 2^attempt, both capped |
| `Backoff.FailuresSleepGeometrically` | engine/publisher/internal/httpx/httpx.go:158-182 | n failures below the cap without Retry-After sleep base * (2^n - 1) |

## Left out

- HTTP and JSON plumbing, the OpenAPI mapping and generated code: the model starts at the domain values.
- Interleavings inside a handler and cancelled contexts: list-then-insert is not one critical section in the source, so the incident theorems are about atomic handler steps.
- Storage failures: the modelled store is the in-memory one, whose operations do not fail on a live context.
- SQL text, migrations and collation: the WHERE and ORDER BY of the listing query are a specified input.
- The anomaly orchestrator's indicator ids: `deterministicIoCID` passes no entropy, so distinct ids are not claimed, despite the comment above it.
- npm, Cargo, Poetry, uv and Maven lockfile parsing, semver internals, ULIDs, SHA-256, JWT and CORS: library work, or parameters here.
- React components, Backstage wiring, scaffolder actions, the CLI, the Slack sender and fixture generators: UI and I/O.
- Maintainer-drift and OIDC detectors, TTL clamping, component-ref and PURL syntax: each is settled by reading one branch.
- Fields no modelled decision reads (titles, scopes, PURLs, explanation texts), and Unicode: text is ASCII, so case folding and UTF-8 validity are not modelled.
- Frame read timeouts, the client's reconnect loop, the request rate limiter and cancellation during sleeps.
- Bus.Bus.Publish: the method runs without receives in between; the interleavings with receivers are the machine's, and the theorems about subscribers cover them.
- Scheduler.Scheduler.RunTick: a fetched snapshot is filed under the ref that was asked for, as the ingestors do it; a snapshot naming another package is not modelled.
