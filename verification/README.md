# DeviceOS: a verified model of its stateful core

DeviceOS is a device-management server: devices register over HTTP, send telemetry over HTTP or MQTT,
receive commands over a websocket, and everything lives in one SQLite database whose schema is kept by a
migration engine. This project models the parts of it that carry state and proves what they promise.

`dafny verify dfyconfig.toml` checks everything.

## What is modelled

* **Migrations** (`Text`, `Scripts`, `Migrations`, `MigrationWalks`, `UpLaws`, `DownLaws`, `RunLaws`, `RecordLaws`,
  `MigrationDriver`). A database is a schema and the `_migrations` rows. The schema type is a parameter and a SQL
  statement is any partial function on it, so every theorem holds for every engine and every script. `Env` and
  `TxEnv` let any BEGIN, statement, record or COMMIT fail. `Migrations` gives the effect of `Migrate`, `Up`, `Down`
  and `DownTo` as functions; `MigrationWalks` says what these are statement by statement and turn by turn, in terms of
  the engine alone; the classes of `MigrationDriver` are the program's loops, proved to compute them.
* **Rate limiter** (`RateLimiting`, `RateLimitingLaws`). The token bucket with 64-bit wrap-around, saturating
  `time.Sub` and truncating division, and runs of calls by any number of clients.
* **Load simulator** (`Sums`, `RegistrationPool`, `OneShotTelemetry`, `Latency`). Each goroutine's channel and
  counter operations are steps; theorems quantify over all interleavings. The percentile report is a method.
* **Shared tables** (`Store`, `StoreRuns`, `StoreLaws`, `MqttLaws`, `CommandLaws`, `DeliveryLaws`, `RetentionLaws`,
  `Topics`, `StoreObjects`). `Store` has the statements of the device, fleet, telemetry, command and MQTT modules on shared
  tables with foreign keys; `StoreRuns` interleaves all writers, with MQTT sessions and websocket tickers whose
  read, write and update are three steps; the classes of `StoreObjects` are the handlers, proved against `Store`.
* **Event hub** (`Events`) and **backup sizes** (`SizeFormat`).

## What the proofs found

* `Migrate` takes the next free version from the same numbers that registered migrations use. When it takes a
  registered one for another script, whatever the name, `Up` skips that migration and `Down` runs its `Down` script for
  a script it does not belong to (`SharedVersionLosesARecord`). A call is safe exactly when its name is recorded
  already, or it records the very `Up` script of a registered migration under that one's version and name, or a version
  and name that no registered migration has (`StaysClearExactly`, `ExplainedExactly`).
* `Up` records with INSERT OR REPLACE. When a name it records is taken or repeated, that evicts another row
  (`UpRecordsExactly`). If the evicted version is a registered one, the next `Up` applies that migration again
  (`RepeatedNameRunsTwice`); `UpRepeatsExactly` and `UpConfluentExactly` give the exact condition under which repeating
  and resuming `Up` are safe.
* An empty `Down` script stops `Down` for good while `DownTo` steps over it (`EmptyDownBlocks`);
  `DownAgreesExactly` gives the exact condition under which the two agree.
* The refill arithmetic overflows for some rates. `HugeRateSkipsARefill` is a rate whose refill comes out as zero;
  `OverflowFreeExactly`, `RefillsExactly`, `RefinesExactly` and `TokensBoundedExactly` say that the same rates are the
  ones for which no intermediate value overflows, every refill is right, the limiter counts as it should, and no bucket
  goes below zero. Overflow never admits too many: `WindowBound` holds for every rate.
* A websocket tick overwrites a result that arrives between its read and its update (`ResultIsOverwritten` is such a
  run). `ResultSurvivesExactly` says when a reported status lasts: exactly when no tick has read the command and is
  still to mark it.
* A tick whose update fails sends its command again at the next tick (`FailedUpdateRepeats`); a command that a tick has
  written is never written by that ticker again exactly when the tick's update went through (`RepeatsExactly`).
* Before its first tick a websocket is written the command cached for its device, which is the last one sent to it. So
  the whole websocket is in the order of the sends exactly when, on connecting, nothing is cached for the device or
  nothing is pending for it (`SocketInOrderExactly`); what the ticker writes always is (`SentInCreationOrder`).
* MQTT sessions are kept by client id, so when a second connection takes over an id and the end of the first one is
  reported after that, the publications of the second are dropped (`TakeoverLosesSession`); `PublishStoresExactly` says
  exactly which publications are stored.
* The MQTT write check and the topic parser agree for a device exactly when its id holds no `/`
  (`AclAgreesWithParser`).
* The answer to a registration never carries the device's group (`DeviceModule.CreateDevice`).
* The comment at modules/events/module.go:27 says that an empty set of events lets all through; the code does so
  for nil only, and the model follows the code. `parseEventsParam` never returns an empty list, so the two cannot
  be told apart over a websocket (`FilterEndToEnd`).

## Model

| member | source | states |
|---|---|---|
| Text.JoinSplit | internal/db/migrate.go:39 | splitting loses nothing: joining the parts gives the string back, and no part holds the separator |
| Text.SplitConcat | internal/db/migrate.go:39 | splitting `a + sep + b` gives the parts of `a` and then those of `b` |
| Text.SplitJoin | internal/db/migrate.go:39 | separator-free parts come back unchanged from join and split |
| Scripts.StatementsConcat | internal/db/migrate.go:39-48 | script splitting is a homomorphism: the statements of `a;b` are those of `a` followed by those of `b` |
| Scripts.BlankSegmentsVanish | internal/db/migrate.go:45-48 | a blank segment before or after a script adds no statement |
| Scripts.StatementsRoundTrip | internal/db/migrate.go:39-48 | trimmed non-blank statements without `;` survive joining and splitting unchanged |
| Scripts.TrimSpaceStrips | internal/db/migrate.go:46 | trimming removes white space at both ends and nothing else |
| Scripts.StatementsAreTidy | internal/db/migrate.go:45-49 | whatever the script, every statement executed is non-blank, trimmed and free of `;` |
| Scripts.SegmentRuns | internal/db/migrate.go:45-49 | a segment that is not blank runs as exactly one statement: itself without the white space at its two ends |
| Scripts.StatementsInOrder | internal/db/migrate.go:39-49 | whatever the script, its statements are its segments that are not blank, each once, in order and trimmed |
| Migrations.MaxVersion | internal/db/migrate.go:56 | COALESCE(MAX(version), default): the default when there is no row, otherwise the greatest version recorded |
| Migrations.FaultOnlyStops | internal/db/migrate.go:45-53 | a script that runs through in any environment has the effect it has in a calm one |
| Migrations.ScriptsCompose | internal/db/migrate.go:39-53 | running `a;b` is running `a` and then `b` in one transaction, on success and on failure; blank segments have no effect |
| MigrationWalks.RunAllExactly | internal/db/migrate.go:45-53 | a script gets from one schema to another if and only if the engine accepts every one of its statements in turn on the way and the environment fails none |
| MigrationWalks.TransactExactly | internal/db/migrate.go:40-61 | a transaction ends well exactly if BEGIN, every statement, the record and COMMIT go through; otherwise the database is as it was |
| MigrationWalks.ApplyExactly | internal/db/migrate.go:94-117 | a migration goes in, with its row in place of those of its version or name, exactly if its whole transaction does |
| MigrationWalks.RevertExactly | internal/db/migrate.go:169-199 | a migration is undone, without its row, exactly if its whole transaction goes through; nothing happens if it has no Down script |
| MigrationWalks.MigrateExactly | internal/db/migrate.go:24-62 | Migrate leaves a recorded name alone; otherwise script and row go in under one more than the greatest version, exactly if the transaction goes through and, where that version could not be read, 1 is free |
| MigrationWalks.FreshNameIsRecorded | internal/db/migrate.go:55-61 | a fresh name whose script the engine accepts is recorded above every recorded version when nothing interferes |
| MigrationWalks.UpExactly | internal/db/migrate.go:78-120 | in every environment an outcome is that of Up if and only if a chain of databases leads there that takes the migrations in order, skips those recorded at the start, applies each other one, and ends at the last or at the first that cannot be applied |
| MigrationWalks.DownExactly | internal/db/migrate.go:122-142 | Down undoes the last registered migration of the greatest recorded version, if that is not negative, and otherwise succeeds without doing anything: with no record, or none registered under that version |
| MigrationWalks.DownToExactly | internal/db/migrate.go:144-167 | in every environment an outcome is that of DownTo if and only if a chain of databases leads there that takes the migrations backwards, skips those not recorded at the start, undoes each other one, and ends at the target, the first migration, or the first that cannot be undone |
| MigrationDriver.Database.Execute | internal/db/migrate.go:45-53 | the loop of split, trim, skip and execute ends in a schema if and only if a trace of accepted statements, all of the script in order, leads there; one refused statement fails it |
| MigrationDriver.Database.Migrate | internal/db/migrate.go:24-62 | skips a recorded name, otherwise commits script and row together under MAX(version)+1 or leaves the database as it was |
| MigrationDriver.Migrator.Add | internal/db/migrate.go:74-76 | appends to the registered migrations |
| MigrationDriver.Migrator.Up | internal/db/migrate.go:78-120 | the loop, with its early return, computes the specified outcome in every environment, which is also the step of the runs |
| MigrationDriver.Migrator.Apply | internal/db/migrate.go:94-117 | one migration's transaction: script and INSERT OR REPLACE commit together or not at all, and only the latter if they cannot |
| MigrationDriver.Migrator.Down | internal/db/migrate.go:122-142 | reverts the last registered migration carrying the greatest recorded version; does nothing if there is none |
| MigrationDriver.Migrator.DownTo | internal/db/migrate.go:144-167 | the backward loop with its skip, break and early return computes the specified descent |
| MigrationDriver.Migrator.Revert | internal/db/migrate.go:169-199 | an empty Down is a silent success that keeps the record; otherwise script and DELETE commit together or not at all |
| UpLaws.UpRecords | internal/db/migrate.go:110-114 | while Up succeeds, INSERT OR REPLACE evicts no other row: the records are the old ones plus one per migration that had none |
| UpLaws.UpStops | internal/db/migrate.go:83-119 | a failed Up stops at a position with all transactions before it committed and nothing after |
| UpLaws.UpInterrupted | internal/db/migrate.go:78-120 | a failed Up leaves exactly the schema and records of an undisturbed Up over some proper prefix |
| UpLaws.UpPresence | internal/db/migrate.go:83-114 | after k turns of a successful Up a registered version is recorded exactly if it was before and its recorded name was not taken since, or it was applied and its name was not taken again |
| UpLaws.UpConfluent | internal/db/migrate.go:78-120 | after any Up over A, failed or not, Up over A+B ends, or fails, exactly as one Up over A+B would have, if no name it records is taken or repeated among the registered versions |
| UpLaws.UpResumable | internal/db/migrate.go:83-119 | under the same condition a later successful Up reaches the state of one uninterrupted Up, and an Up after a success changes nothing |
| UpLaws.UpRepeatsExactly | internal/db/migrate.go:83-114 | after a successful Up another one changes nothing if and only if no migration the first applied carries the recorded name of another registered version and no two it applied share a name |
| UpLaws.UpConfluentExactly | internal/db/migrate.go:83-119 | when one uninterrupted Up goes through, stopping it after any prefix and starting over makes no difference if and only if that holds |
| DownLaws.RoundTrip | internal/db/migrate.go:78-199 | after Up on an empty record, DownTo(t) leaves exactly what applying only versions <= t gives, the original schema when t is below all, and a whole level in between if it fails |
| DownLaws.DownRepeatedIsDownTo | internal/db/migrate.go:122-167 | calling Down once per record above t reaches the schema and records of DownTo(t), even when a Down script fails on the way |
| DownLaws.DownAgreesExactly | internal/db/migrate.go:122-173 | with empty Down scripts allowed, the two agree if and only if no empty Down above t stands over a non-empty one |
| DownLaws.EmptyDownBlocks | internal/db/migrate.go:170-173 | an empty Down at the top stops Down for good, however often it is called, while DownTo goes on below it |
| RunLaws.UpKeeps | internal/db/migrate.go:78-120 | Up, at any point of its loop, keeps the database explained by a log of whole scripts |
| RunLaws.DownFromKeeps | internal/db/migrate.go:155-166 | so does DownTo at any point of its loop |
| RunLaws.MigrateKeeps | internal/db/migrate.go:24-62 | so does Migrate, if it stays clear of the registered versions and names |
| RunLaws.RunsAreExplained | internal/db/migrate.go:24-199 | in every run of Add, Migrate, Up, Down and DownTo with any failures, some alternating log of whole registered or given scripts replays to the schema, and the rows are exactly the scripts it leaves in effect: no half script, no orphan record, no unrecorded effect, and no Down script that runs for a script it does not belong to; Migrate must stay clear of what is registered |
| RunLaws.ReplayExactly | internal/db/migrate.go:40-62 | a log replays to a schema if and only if every statement of every script in it is accepted on the way, from schema to schema |
| RunLaws.SharedVersionLosesARecord | internal/db/migrate.go:55-58 | a concrete run, for every name, in which Migrate takes a registered version for another script: Up skips that migration, Down runs its Down script and drops the other record |
| RecordLaws.NamesStayUnique | internal/db/migrate.go:293 | no run whatsoever records two rows under one name |
| RecordLaws.UpRecordsExactly | internal/db/migrate.go:110-114 | a successful Up leaves the old records plus one per migration that had none if and only if the names it records are free and distinct; otherwise INSERT OR REPLACE has evicted a row |
| RecordLaws.RepeatedNameRunsTwice | internal/db/migrate.go:110-114 | a concrete run with two migrations under one name: the second Up applies the first migration again |
| RecordLaws.ExplainedExactly | internal/db/migrate.go:55-61 | for an engine that accepts every statement, ascending non-negative versions and non-empty Down scripts: after a Migrate that records its script, whatever is called next leaves the database explained by a continuation of its history, in which Down scripts only undo their own Up scripts, if and only if that Migrate stayed clear |
| RecordLaws.HarmlessExactly | internal/db/migrate.go:110-138 | in a database that a log explains, no registered migration can undo another script's text, or evict or drop its record, if and only if every record belongs to a registered migration whose own Up script is in effect, or shares neither version nor name with any |
| RecordLaws.StaysClearExactly | internal/db/migrate.go:55-58 | a Migrate that records its script keeps everything safe in that sense if and only if its name, script and MAX(version)+1 stay clear of the registered ones |
| RateLimiting.Wrap64 | internal/server/server.go:240-242 | the value kept by a 64-bit integer: in range, congruent modulo 2^64, and unchanged if it was in range |
| RateLimiting.ClientBucket.Take | internal/server/server.go:236-253 | the refill and draw of allow on one bucket, with its clock always advanced; within an interval an admission costs one token and needs one |
| RateLimiting.RateLimiter.Allow | internal/server/server.go:230-254 | creates a full bucket for a new address, draws from that address's bucket and leaves every other bucket alone |
| RateLimitingLaws.Isolation | internal/server/server.go:234-238 | an address is answered as if it were alone, whatever other clients do |
| RateLimitingLaws.OverflowFreeExactly | internal/server/server.go:240-242 | no intermediate value leaves int64, for any elapsed time and token count, if and only if (MAXINT64/interval + 1) * rate does not |
| RateLimitingLaws.SmallRatesFit | internal/server/server.go:240-242 | every rate below 2^32 satisfies that condition |
| RateLimitingLaws.HugeRateSkipsARefill | internal/server/server.go:240-243 | a rate of 2^62 gets nothing back after a gap of four minutes |
| RateLimitingLaws.FullOrNothing | internal/server/server.go:236-243 | for a rate that fits, a bucket is refilled entirely after an idle gap of at least the interval, and not at all otherwise, even if the clock runs backwards |
| RateLimitingLaws.RefillsExactly | internal/server/server.go:236-243 | every bucket is refilled so after every gap if and only if the rate fits |
| RateLimitingLaws.SoloIsIdeal | internal/server/server.go:230-254 | the 64-bit arithmetic answers as the arithmetic-free bucket does |
| RateLimitingLaws.BucketCounts | internal/server/server.go:236-253 | the tokens are the rate minus the admissions since the last idle gap |
| RateLimitingLaws.RefinesCounter | internal/server/server.go:230-254 | in every interleaving, whatever the clock does, a call is admitted exactly when fewer than `rate` of that address's own calls were admitted since its last idle gap |
| RateLimitingLaws.RefinesExactly | internal/server/server.go:230-254 | every call of every interleaving under a non-decreasing clock is answered so if and only if the rate fits |
| RateLimitingLaws.TokensBounded | internal/server/server.go:217-220 | for a rate that fits, 0 <= tokens <= rate in every bucket of every run |
| RateLimitingLaws.TokensBoundedExactly | internal/server/server.go:240-252 | for every rate no bucket ever holds more than it; that none ever goes below zero holds in every run if and only if the rate fits |
| RateLimitingLaws.NonPositiveRateRefuses | internal/server/server.go:246-248 | a rate of zero or less admits nobody |
| RateLimitingLaws.SoloPays | internal/server/server.go:236-253 | for every rate of zero or more, overflowing or not, an admission and what the bucket holds after it never exceed one rate, nor, without an idle gap before it, what the bucket held |
| RateLimitingLaws.BurstsPay | internal/server/server.go:236-253 | from that alone: between two calls admissions plus the tokens left never exceed one rate per burst |
| RateLimitingLaws.WindowBound | internal/server/server.go:230-254 | for every rate of zero or more, overflowing or not, in any stretch of an address's calls from s to t at most rate * (1 + floor((t-s)/interval)) are admitted |
| RegistrationPool.EveryIndexOnce | cmd/simload/main.go:118-167 | after any interleaving each device index is in exactly one of not queued, jobs, a worker, results, counted; jobs is in the order of feeding; registered + errors = counted; the non-empty ids number `registered` |
| RegistrationPool.SendsNeverBlock | cmd/simload/main.go:118-140 | neither the feeding loop nor a worker ever finds its channel full, and the collecting loop never writes out of range |
| RegistrationPool.StopsOnlyWhenCounted | cmd/simload/main.go:124-166 | with a worker, no step is left only when every device is counted, once |
| RegistrationPool.PoolDrains | cmd/simload/main.go:118-167 | every interleaving has at most 5 * devices + workers + 1 steps, and where none is left registered + errors = devices |
| RegistrationPool.IdsArrive | cmd/simload/main.go:133-166 | in every run the id stored for a counted index is the one that its registration, the only one of the run, returned, and every other index has none |
| RegistrationPool.OutcomesAreCounted | cmd/simload/main.go:158-166 | in every run `registered` is the number of counted devices whose registration brought an id, and `errors` of those whose did not |
| OneShotTelemetry.SafeSends | cmd/simload/main.go:198-223 | at most `concurrency` sends in flight; reporting an outcome never blocks and never meets a closed channel; releasing the semaphore never blocks |
| OneShotTelemetry.HaltsWhenDone | cmd/simload/main.go:226-232 | the phase can only halt with both channels closed and sent + new errors = goroutines launched = non-empty ids |
| OneShotTelemetry.OneShotTerminates | cmd/simload/main.go:196-232 | from any state of the pool, every interleaving of the phase ends within 6 * devices + 3 steps, with all those guarantees |
| OneShotTelemetry.EachDeviceSentOnce | cmd/simload/main.go:204-223 | in every interleaving the sent count has grown by the sends that went through and the errors by those that failed; where the phase halts there is one goroutine per registered device, with its id, and each has sent exactly once |
| Latency.SortSorts | cmd/simload/main.go:45-47 | the sorted copy is ordered and holds exactly the recorded samples |
| Latency.SortedSampleIsPercentile | cmd/simload/main.go:48-50 | the rank is in range and its sample has at least ceil(q*n) samples up to it and fewer below |
| Latency.PercentileUnique | cmd/simload/main.go:48-50 | at most one value is the q-th percentile, so the statement determines it |
| Latency.PercentilesAscend | cmd/simload/main.go:48-50 | a larger percentage never gives a smaller percentile |
| Latency.LatencyTracker.Record | cmd/simload/main.go:33-37 | appends the sample |
| Latency.LatencyTracker.Report | cmd/simload/main.go:39-52 | zeros for no samples; otherwise the three percentiles of the recorded list, in order, with the list unchanged |
| Latency.SortedCopy | cmd/simload/main.go:45-47 | the copy that is sorted in place is the sorted list of the samples |
| SizeFormat.FmtSize | cmd/deviceos/backup.go:232-243 | finds the largest power of 1024 that does not exceed the size, and its letter, K for the first to E for the sixth, without a multiplication leaving 63 bits |
| SizeFormat.BestUnitUnique | cmd/deviceos/backup.go:237-242 | only one divisor and unit fit a size |
| SizeFormat.UnitInRange | cmd/deviceos/backup.go:242 | for sizes below 2^63 the unit index is at most 5 |
| Topics.TopicParts | modules/mqtt/module.go:193 | the topic built for a device id without `/` has exactly the three expected levels |
| Topics.ParsedTopicRebuilds | modules/mqtt/module.go:236-242 | a topic that parses is the topic built from what was parsed, and no parsed id holds a `/` |
| Topics.AclAgreesWithParser | modules/mqtt/module.go:183-196 | write check and parser agree on every topic if and only if the session's device id has no `/` |
| Events.ParseEventsParam | modules/events/module.go:187-202 | the hand-written scanner returns the non-empty comma segments in order, or nil when there is none |
| Events.TypesInOrder | modules/events/module.go:187-202 | a query without a comma names itself or nothing, at a comma the two lists are appended, and an empty list is nil: every non-empty segment, in order |
| Events.FilterEndToEnd | modules/events/module.go:31-36 | an event passes a connection's filter exactly when its query has no non-empty segment or the event is one of them |
| Events.Hub.Subscribe | modules/events/module.go:53-69 | registers the connection under the set of its event types, nil for nil |
| Events.Hub.Unsubscribe | modules/events/module.go:71-75 | removes the connection and no other |
| Events.Hub.Publish | modules/events/module.go:77-97 | writes exactly once to each interested connection and defers exactly one removal for each failed write |
| Events.HubHoldsTheLive | modules/events/module.go:71-97 | once all deferred removals have run, in any order, the hub holds exactly the connections opened and since then neither unsubscribed nor failed in a publication that their query asks for; before that it misses none of them |
| Events.DeliveredByQuery | modules/events/module.go:144-202 | at any point of any run a subscribed connection is written an event exactly when the query it was opened with asks for it |
| StoreObjects.DeviceModule.CreateDevice | modules/devices/storage.go:31-70 | inserts an offline device with defaulted metadata and tags, unless the id is taken, and answers with its row, its secret and the metadata and tags as given, but no group |
| StoreObjects.DeviceModule.UpdateDevice | modules/devices/storage.go:133-153 | overwrites name, type, metadata, tags, group and time of change of that device, with {} and [] for what is absent, and nothing else; then reads the row back |
| StoreObjects.DeviceModule.DeleteDevice | modules/devices/storage.go:155-158 | removes the device with its telemetry and commands; a missing device is no error |
| StoreObjects.FleetModule.HandleAddTags | modules/fleet/module.go:117-135 | replaces the tags of a device of the caller's organisation; not found otherwise |
| StoreObjects.FleetModule.HandleSetGroup | modules/fleet/module.go:141-158 | replaces the group of a device of the caller's organisation; not found otherwise |
| StoreObjects.FleetModule.HandleHealth | modules/fleet/module.go:160-173 | the counters of one pass over the table are the numbers of the organisation's devices, and of those online and offline, which never exceed the total; zeros when the query fails |
| StoreObjects.TelemetryHub.Add | modules/telemetry/module.go:44-48 | adds the connection |
| StoreObjects.TelemetryHub.Remove | modules/telemetry/module.go:50-54 | removes the connection and no other |
| StoreObjects.TelemetryHub.Broadcast | modules/telemetry/module.go:56-66 | writes exactly once to every connection and leaves exactly one removal for each failed write |
| StoreObjects.TelemetryModule.AddTelemetryHook | modules/telemetry/module.go:31-33 | appends the hook |
| StoreObjects.TelemetryModule.Store | modules/telemetry/module.go:138-168 | stores the row, marks the device online, tells every websocket once, runs all hooks in order on the stored values and returns the row id, or does nothing |
| StoreObjects.TelemetryModule.HandleIngest | modules/telemetry/module.go:170-196 | refuses a missing device id or metrics, defaults the timestamp to now, and otherwise stores |
| StoreObjects.TelemetryModule.Prune | modules/telemetry/storage.go:55-69 | removes exactly the rows older than now - ttl |
| StoreObjects.TelemetryModule.HandleQuery | modules/telemetry/module.go:198-240 | the newest-first rows up to the limit, 100 by default, without those that cannot be scanned, in order |
| StoreObjects.TelemetryModule.HandleLatest | modules/telemetry/module.go:242-269 | the newest row of the device, filtered by organisation when there is one |
| StoreObjects.CommandModule.HandleSend | modules/commands/module.go:77-119 | inserts a pending command for an existing device and caches it under the device id |
| StoreObjects.CommandModule.HandleResult | modules/commands/module.go:180-207 | sets the status reported, or 'completed' if none is, the result and the completion of the caller's command and of no other row; not found otherwise; uncaches by command id |
| StoreObjects.CommandModule.SendPending | modules/commands/module.go:233-240 | a new websocket is written the cached command of its device, or without a device id every cached command, each exactly once |
| StoreObjects.CommandModule.Tick | modules/commands/module.go:253-268 | sends a pending command that none is older than, if there is one, and marks exactly the rows with its id delivered |
| StoreObjects.MqttHook.OnConnectAuthenticate | modules/mqtt/module.go:147-173 | accepts exactly the stored key of an existing device, whatever else the row holds, and opens a session with its organisation; refuses everything else and changes no session |
| StoreObjects.MqttHook.OnDisconnect | modules/mqtt/module.go:175-181 | removes the client's session and no other |
| StoreObjects.MqttHook.OnACLCheck | modules/mqtt/module.go:183-196 | allows every read, and a write exactly on the topic that parses to the session's device |
| StoreObjects.MqttHook.OnPublished | modules/mqtt/module.go:198-234 | stores under the session's device and organisation when topic, session and payload agree, and does nothing otherwise |
| DeliveryLaws.OldestIsEarliest | modules/commands/module.go:256-259 | the ticker's query finds a pending command of that device and organisation that no other is older than, and none only if there is none |
| DeliveryLaws.OldestSentFirst | modules/commands/module.go:256-259 | in a table in the order of sends, under a non-decreasing clock, it is the pending command that was sent first |
| StoreLaws.CascadeExactly | modules/devices/storage.go:155-158 | deleting a device removes exactly its own telemetry and commands with it |
| StoreLaws.RowsRefer | modules/telemetry/storage.go:17 | in every reachable state every telemetry and command row refers to an existing device |
| StoreLaws.OnlineExactlyWhenHeard | modules/telemetry/storage.go:26-39 | in every reachable state a device is online exactly when telemetry was accepted for it since its creation, and offline otherwise |
| StoreLaws.HealthAddsUp | modules/fleet/module.go:160-166 | in every reachable state total = online + offline for every organisation |
| MqttLaws.KeysAndOrgsStay | modules/devices/storage.go:133-158 | no writer changes a device's key or organisation, and only createDevice adds a device |
| MqttLaws.StaysTrusted | modules/mqtt/module.go:147-181 | in every run a session exists exactly when its client's latest successful authentication was not followed by a disconnect, and it carries that login's device, key and organisation |
| MqttLaws.PublishStoresExactly | modules/mqtt/module.go:198-234 | in every run a publication stores a row if and only if that login presented the stored key of an existing device whose own topic it is; the row is that device's and carries its organisation, and only the device's status and last sight may change with it |
| MqttLaws.TakeoverLosesSession | modules/mqtt/module.go:175-181 | a reachable run in which a device connects twice under one client id: its reading is stored until the end of the first connection is reported, and dropped from then on |
| CommandLaws.BecomesPendingExactly | modules/commands/module.go:105-196 | a command that is not pending becomes pending if and only if it is sent or a result reports the status 'pending' |
| CommandLaws.ResultAt | modules/commands/module.go:193-196 | a result gives exactly the rows with its id and organisation the status reported, or 'completed' if it is empty, the result and the time, and changes no other field or row |
| CommandLaws.NeverReenters | modules/commands/module.go:193-268 | without such a report a command that has left 'pending' never is pending again |
| CommandLaws.LeavesPendingOnce | modules/commands/module.go:193-268 | in every interleaving of all writers and any number of tickers a command leaves 'pending' at most once |
| CommandLaws.IdsStayDistinct | modules/commands/storage.go:9-19 | in every reachable state no two command rows share an id, and every id was handed out by a send |
| CommandLaws.RowOrigin | modules/commands/module.go:105-268 | after any action a command row was there before, or was just sent, or carries the status just reported, or was just marked by a tick that had read it |
| CommandLaws.ResultSurvivesExactly | modules/commands/module.go:193-267 | in every reachable state a command that is not pending keeps its status through every continuation without another report on it if and only if that status is 'delivered' or no tick has read the command and is still to mark it |
| CommandLaws.ResultIsOverwritten | modules/commands/module.go:265-267 | a reachable run in which a command is reported 'completed' and ends up 'delivered' |
| DeliveryLaws.TableInSendOrder | modules/commands/module.go:105-109 | in every reachable state the command table is in the order of the sends and each row has its send's time, whatever was updated or deleted |
| DeliveryLaws.TickIsAtomic | modules/commands/module.go:253-268 | a tick's three actions with nothing in between write the oldest pending command and change nothing but its status, and not that if the query or the update fails |
| DeliveryLaws.TickIsThreeActions | modules/commands/module.go:253-268 | read, write and mark of any idle listener leave everything as it was but for the rows with the id found, which become delivered if the update goes through; nothing is found without a device id |
| DeliveryLaws.SentInCreationOrder | modules/commands/module.go:249-268 | in every run the ticker of a listener that connects at any time, with such ticks and anything at all between them, other listeners included, writes commands in the order they were sent, and each at most once if its updates go through |
| DeliveryLaws.FailedUpdateRepeats | modules/commands/module.go:265-267 | a tick whose update fails is followed by one that writes the same command again |
| DeliveryLaws.RepeatsExactly | modules/commands/module.go:256-267 | whatever follows a tick that wrote a command, short of a reported 'pending', its ticker never writes that command again if and only if the tick's update went through |
| DeliveryLaws.CacheHoldsLatest | modules/commands/module.go:116-205 | in every reachable state no command in the table was sent to a device after the one cached for it |
| DeliveryLaws.SocketIsCacheThenTicker | modules/commands/module.go:233-268 | all that is written to a websocket is the command cached for its device when it connects, if there is one, and then what its ticker writes |
| DeliveryLaws.SocketInOrderExactly | modules/commands/module.go:233-268 | in every orderly continuation the whole websocket is written commands strictly in the order they were sent if and only if on connecting nothing is cached for its device or nothing is pending for it |
| DeliveryLaws.SilentAfterHangup | modules/commands/module.go:247-252 | once its connection has ended a listener is written nothing more until it connects again |
| DeliveryLaws.TickDeliversOne | modules/commands/module.go:256-267 | a tick delivers one pending command and changes nothing else |
| DeliveryLaws.DrainsInCountTicks | modules/commands/module.go:249-268 | after n ticks on n pending commands each of them is delivered and nothing else has changed |
| DeliveryLaws.BacklogDrains | modules/commands/module.go:249-268 | in every reachable state as many ticks of an idle listener as commands are pending for it deliver all of them and change nothing else in any table, session or listener |
| RetentionLaws.PresentExactlyIfSurvives | modules/telemetry/storage.go:55-60 | in every run a stored row is present if and only if since then no prune with a later cutoff went through and its device was not deleted |
| RetentionLaws.LastCutoffDecides | modules/telemetry/storage.go:55-60 | with a non-decreasing clock and no deletion only the last cutoff matters |
| RetentionLaws.PresentExactlyIfRecent | modules/telemetry/storage.go:55-60 | then a row is present exactly when its timestamp is not below the last cutoff applied since its insertion |
| RetentionLaws.NewestFirstSorts | modules/telemetry/module.go:210-219 | the query order is descending and holds every row exactly once |
| RetentionLaws.QueryReturnsNewest | modules/telemetry/module.go:205-220 | a query returns the first `limit` rows of the complete newest-first list of the device's rows, of the organisation when one is given |
| RetentionLaws.PruneCommutesWithQuery | modules/telemetry/module.go:205-220 | the newest k of the rows kept by a prune are the kept ones among the newest k |
| RetentionLaws.Newest | modules/telemetry/module.go:250-261 | a row with the greatest timestamp, found in one pass |
| RetentionLaws.LatestIsLimitOne | modules/telemetry/module.go:242-269 | the statement of handleLatest, the query with limit 1, returns that row |

## Left out

- HTTP routing, JSON, websocket and TCP transport, the MQTT broker, logging, dashboard and command lines: I/O and libraries. Their outcomes enter as parameters: whether a statement, a scan, a write or the decoding of a payload succeeds, what the clock says, which identifiers are generated.
- Cryptography, tokens and route gating: library calls. The checksum of a script is an arbitrary function.
- SQLite itself: statements are atomic, a transaction commits or restores. Foreign keys are taken as enforced on every pooled connection, as internal/db/db.go:107 intends.
- Timestamps are integers, not the text SQLite stores and compares; rows with equal timestamps keep row order.
- Strings are sequences of characters, not bytes. White space is Go's `unicode.IsSpace` on characters.
- Errors are modelled as a failed outcome; their texts and wrapping are not.
- The upgrade of an old `_migrations` table (internal/db/migrate.go:251-293): the model starts behind it, with the unique index in place. `Status` only lists rows.
- MigrationDriver.Database.Migrate: versions are unbounded integers, so MAX(version)+1 does not wrap; MAX(version) is read from the committed rows, and the connection pool never runs out.
- RunLaws.RunsAreExplained: that Migrate stays clear is assumed. The other direction, RecordLaws.ExplainedExactly, is for an engine that accepts every statement, since a script that fails may hide the damage; for other engines RecordLaws.StaysClearExactly says when records are safe from each other.
- RegistrationPool.PoolDrains: no claim that the collecting loop ends. `results` is never closed, so after the last answer the loop at cmd/simload/main.go:158 waits for ever; OneShotTelemetry therefore starts from any state of the pool. The progress printer and the sustained-rate phase are not modelled.
- Latency.SortedSampleIsPercentile: ranks are exact rationals; the rounding of `float64(n)*0.95` is not modelled. `sort.Slice` is modelled by its result, since the model's sequence is a copy anyway.
- SizeFormat.FmtSize: returns what is formatted, not the text of `%.1f`.
- Events: the order in which Publish walks its map is left open; `Len`, the read loop of a connection and the per-connection lock are not modelled.
- StoreObjects.TelemetryModule.Store: the JSON text sent to the websockets and what a hook does are not modelled; removals from the telemetry hub run later, as in the event hub.
- StoreLaws.OnlineExactlyWhenHeard: telemetry counts as heard when its row and the status update both go through; the error of that update is ignored by the code, so a row can be stored for a device that stays offline.
- StoreObjects.DeviceModule.UpdateDevice: whether getDevice can scan the row it reads back is a parameter, as a NULL `last_seen` read into a `time.Time` is up to database/sql.
- StoreObjects.TelemetryModule.HandleQuery: the limit is an integer; other texts for it are not modelled.
- StoreObjects.CommandModule.HandleSend: the cache `pending` is stored by device id and deleted by command id, so it may hold a command that is long completed; nothing is claimed about its agreement with the table beyond DeliveryLaws.CacheHoldsLatest.
- DeliveryLaws.SocketInOrderExactly: is about websockets with a device id; one without gets the whole cache in map order (StoreObjects.CommandModule.SendPending) and has no ticks. Connecting and being written the cached command are one step.
- DeliveryLaws.SentInCreationOrder: is about what the ticker writes; the listener's own three actions of a tick are taken together. With several listeners each of them delivers in order, but two may send the same command.
- MqttLaws.TakeoverLosesSession: when the broker reports the disconnect of a connection that was taken over is its affair; the lemma says what follows if it does so after the takeover.
- Freshness of generated device and command ids is assumed (StoreRuns.FreshIds), as is one subscription per connection (Events.FreshConns).
- Alerts, webhooks, tenants, audit, registry, config, OTA, versioning, groups, and the list and get handlers: single-row writes, filters and ordered loops that would only add easy members.
