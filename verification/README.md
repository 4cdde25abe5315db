# Verification of the configuration centre

This project models the stateful core of the configuration centre in Dafny and proves what every
run of it keeps: the versioned store with drafts and releases, the notification channel, the MySQL
backend with its connection pool, namespace inheritance, the publish engine and URL routing.

`dafny verify dfyconfig.toml` checks everything.

## How the model is built

- **Tables.** `ConfigTables` gives the four tables (a map keyed by namespace and key, and append-only
  sequences in insertion order) and one function per store operation. The classes
  `SqliteStore.SqliteConfigStore`, `PublishEngine.PublishEngine` and `MysqlStore.MysqlConfigStore`
  change fields step by step, as the C++ does, and each method is proved against those functions.
- **Runs.** A run is any sequence of store operations from empty tables, each one region under the store's
  mutex. The explicit begin, commit and rollback take no lock, and a grayscale publish calls begin and
  rollback on the one shared storage, so whatever falls in between runs inside that transaction.
  `StatementRuns` interleaves the single statements of calls with these begins and rollbacks: in every
  interleaving the tables are what the statements outside the windows make, followed by those of the
  transaction still open. When no window opens or closes inside a call this is a run of whole calls,
  `TransactionWindows`, and the theorems of `StoreRuns` speak of its operations outside windows.
  `TornCalls` says what a cut call leaves and what becomes of the audit trail.
- **Calls of several regions.** `rollbackConfig` is proved with arbitrary operations between its two
  regions. `ConcurrentDrafts` interleaves the read and the write of any number of `addDraftChange` calls
  with each other and with other calls, `ConcurrentRollouts` the three regions of `fullRollout` with
  publishes. `EngineRuns` speaks of sequential engine runs.
- **Protocols.** `ChannelProtocol` and `ConnectionPool` are step systems: one step per locked region,
  per wake-up (notified or spurious) and per timeout. Any number of waiters, callbacks and threads.
- **Text.** `SqlLiteral` pairs the escaping loop with a scanner written from the section "String
  Literals" of the MySQL 8.0 Reference Manual; `ConnectionString` keeps the wrap-around of `size_t`
  and `std::stoi`; `Routing` keeps every `find` of the dispatcher.

Assumed of the environment: an insert fails exactly on a duplicate primary key or, on MySQL, a missing
foreign key; rollback restores the tables of `begin`; SQLite refuses a nested `begin`; statements on the
shared connection run one at a time; strings compare exactly; callbacks do not call back into the
channel, though they may throw. Timestamps, statement failures and the position of a throwing callback
are parameters.

## What turned out false, and exactly when it holds

- A draft edit of a live key hides the key from live readers until the next publish
  (`StoreRuns.DraftEditHidesLiveKey`); the storage tests expect the edit to be visible, the design the old
  value.
- A second edit before a publish is dropped although the API reports success; put, publish, get returns
  the value put exactly when the key had no other unpublished value (`HttpApi.PutPublishGet`). With
  overlapping callers, those edits of a live key take effect that read it before the first of them wrote
  (`ConcurrentDrafts.OverlappingDrafts`).
- A delete reports success always, and the key is gone exactly when it was absent or a draft: a published
  key stays, and dropping the edit of one removes it altogether (`HttpApi.DeleteRemovesIffDraft`,
  `HttpApi.DroppedEditLosesKey`).
- A write that reports success can vanish: run as a whole, it survives exactly when it lies in no window of
  a grayscale publish (`TransactionWindows.WriteSurvivesIffOutside`, `TransactionWindows.ReportedWriteIsLost`).
- The edge of a window can cut a call in two. Over every interleaving the version entries exceed the
  logged changes by the windows opened between the two inserts of a write, less those rolled back there
  (`TornCalls.AuditTrailDrift`). `TornCalls.TornByBegin` and `TornCalls.TornByRollback` say exactly when a
  cut write is whole or absent, when the log still matches the versions and when it still chains;
  `TornCalls.CutUpdateBreaksChain` is a cut that keeps the match and breaks the chain.
- A grayscale publish always fails on SQLite; on MySQL it stores a full release, returns true even when
  the publish inside failed, and costs two connections for good.
- Two overlapping rollouts of one release leave an active release too many; once all rollouts are done the
  active releases equal the publishes exactly when no release was rolled out twice
  (`ConcurrentRollouts.ActivesWhenDone`).
- A callback that throws leaves its notification in the history but pending for nobody; every publication
  is delivered or pending exactly when none threw (`ChannelProtocol.ExactlyOnceInOrder`,
  `ChannelProtocol.ThrowingCallbackLosesNotification`).
- Resolution of an inherited key never returns on some parent graphs: it always returns exactly when
  the graph has no cycle (`Namespaces.ReturnsAlwaysIffNoCycle`), and a creation closes one exactly when the
  chain from the named parent reaches the new id (`Namespaces.CreationClosesCycleIff`).
- Version histories of two keys can mix when keys hold colons, which no write path forbids; a row's
  entries form its lives exactly when no other row with its config id is ever written
  (`StoreRuns.VersionsFormLivesIff`).
- A MySQL publish ignores what its statements report. It is stored whole or not at all exactly when the
  update succeeds, the namespace does not exist, or no row was waiting (`BackendSimulation.PublishWholeIff`);
  with a successful update it stores nothing exactly when the namespace does not exist
  (`BackendSimulation.PublishStoresIffNamespaceExists`).
- The backends stay alike exactly as long as what SQLite stores and MySQL's foreign keys would refuse names
  an existing namespace (`BackendSimulation.BackendsAgreeWithoutRollback`).
- The documented long-poll URL, which has a query string, is not found
  (`Routing.NotificationQueryNotFound`).

## Model

| member | source | states |
|---|---|---|
| Channel.NotificationChannel.Publish | src/subscription/notification_channel.cpp:21-35 | the history grows; the namespace's callbacks are called once each, in order, up to one that throws; the pending list grows if and only if none throws |
| Channel.NotificationChannel.TakePending | src/subscription/notification_channel.cpp:42-59 | the scan-and-erase loop takes exactly what `Take` takes |
| Channel.TakeIsOldest | src/subscription/notification_channel.cpp:42-59 | a scan hits exactly when the namespace has something pending, removes its oldest entry, and leaves every other namespace's pending list unchanged |
| Channel.NotificationChannel.GetMissedNotifications | src/subscription/notification_channel.cpp:64-78 | the loop returns the history entries above the given release id, in order |
| Channel.MissedIsSuffix | src/subscription/notification_channel.cpp:64-78 | catch-up is the exact suffix of the history from a position if and only if the given id separates the release ids there |
| ChannelProtocol.RunInv | src/subscription/notification_channel.cpp:11-62 | every interleaving of publish, throwing or not, subscribe, unsubscribe, wait, wake-up, spurious wake-up and timeout keeps the whole invariant |
| ChannelProtocol.ExactlyOnceInOrder | src/subscription/notification_channel.cpp:21-62 | the completed publications to a namespace are what waiters took, in take order, followed by what is pending: none lost, duplicated or reordered; these are all its publications if and only if no callback threw in one |
| ChannelProtocol.NoLostWakeup | src/subscription/notification_channel.cpp:33-34 | a sleeper nobody has woken has nothing pending for its namespace |
| ChannelProtocol.PendingReachesSleeper | src/subscription/notification_channel.cpp:50-59 | a sleeper with something pending has been woken and, resuming or timing out, returns the oldest |
| ChannelProtocol.ReturnsTrueIffRemovedOne | src/subscription/notification_channel.cpp:37-62 | a wait returns true if and only if it removed exactly one entry, the one it returned and one of its namespace, and otherwise removed none |
| ChannelProtocol.WaitReturnsOrSleeps | src/subscription/notification_channel.cpp:37-59 | a wait returns at once with the oldest pending notification of its namespace, or goes to sleep when there is none |
| ChannelProtocol.SleeperReturns | src/subscription/notification_channel.cpp:50-62 | a wake-up with nothing pending leaves the call asleep and a timeout returns false; with something pending both return the oldest |
| ChannelProtocol.ReturnedIffDecided | src/subscription/notification_channel.cpp:37-62 | in every run a call has returned a given result if and only if its own entry, wake-up or timeout found it; so false if and only if its timeout found it asleep with nothing pending |
| ChannelProtocol.CallbackGetsItsSlice | src/subscription/notification_channel.cpp:11-31 | a callback's calls are its namespace's history from subscription to unsubscription if and only if no publish in between threw before reaching it |
| ChannelProtocol.CatchUpCompletesCallback | src/subscription/notification_channel.cpp:64-78 | with increasing release ids the log of a callback that was not skipped, followed by catch-up from its last id, is the published history from its subscription on, without gap or repeat |
| ChannelProtocol.CatchUpNeedsIncreasingIds | src/subscription/notification_channel.cpp:71-75 | with decreasing ids catch-up misses a release |
| ChannelProtocol.ThrowingCallbackLosesNotification | src/subscription/notification_channel.cpp:24-34 | a callback that throws: the publication is in the history, taken by and pending for nobody |
| ConfigTables.ConfigIdCollision | src/storage/sqlite_config_store.cpp:19-21 | exactly which pairs of rows share a config id |
| ConfigTables.ConfigIdInjective | src/storage/sqlite_config_store.cpp:19-21 | colon-free keys make config ids injective |
| ConfigTables.MaxOf | src/storage/sqlite_config_store.cpp:338-344 | the release version the publish query yields is attained and is an upper bound |
| SqliteStore.SqliteConfigStore.GetConfigVersion | src/storage/sqlite_config_store.cpp:246-254 | some matching entry if and only if one exists |
| SqliteStore.SqliteConfigStore.RollbackConfig | src/storage/sqlite_config_store.cpp:256-262 | succeeds if and only if row and target exist, and is then a draft update to a target value |
| SqliteStore.SqliteConfigStore.PublishRelease | src/storage/sqlite_config_store.cpp:325-365 | a failure at any point inside the transaction leaves every table unchanged; success makes exactly the namespace's rows live and appends the next release |
| StoreRuns.LogMatchesVersions | src/storage/sqlite_config_store.cpp:120-138 | in every run the non-delete log entries are the version entries one for one, in order, with equal version, value, change and operator |
| StoreRuns.LogChains | src/storage/sqlite_config_store.cpp:162-181 | along a row's entries each update continues the previous entry's version and value, and the row agrees with the last |
| StoreRuns.VersionsFormLives | src/storage/sqlite_config_store.cpp:100-210 | when no twin is written a row's version numbers are 1..k1, 1..k2, ..., one block per life as counted from the run, and the row carries the last entry's number and value |
| StoreRuns.VersionsFormLivesIff | src/storage/sqlite_config_store.cpp:100-210 | the version numbers are those of the row's lives if and only if no other row with the same config id was written |
| StoreRuns.EntriesCounted | src/storage/sqlite_config_store.cpp:100-184 | a row's version entries number its own writes and those of its twins |
| StoreRuns.ColonFreeKeysHaveNoTwin | src/storage/sqlite_config_store.cpp:19-21 | a colon-free key in a run that writes only colon-free keys has no twin |
| StoreRuns.ColonsMixHistories | src/storage/sqlite_config_store.cpp:19-21 | two keys with colons whose histories mix |
| StoreRuns.VersionBound | src/storage/sqlite_config_store.cpp:153 | a version never exceeds the length of the run, so int32 overflow needs 2^31 operations |
| StoreRuns.RollbackAppendsTarget | src/storage/sqlite_config_store.cpp:246-262 | with any operations between its two regions a rollback changes nothing or appends one draft version with the target's value, one above the current, all earlier entries and other rows unchanged |
| StoreRuns.RollbackRestoresOwnValue | src/storage/sqlite_config_store.cpp:246-262 | without written twins the restored value was once written to that very row, as the version asked for |
| StoreRuns.StatusesStayKnown | src/storage/sqlite_config_store.cpp:109-160 | a row's status is always draft or live |
| StoreRuns.ViewIsFold | src/storage/sqlite_config_store.cpp:100-236 | each row, all of it, is a fold of the run by an automaton that never looks at the tables |
| StoreRuns.LiveReaderSeesLastWrite | src/storage/sqlite_config_store.cpp:212-224 | a reader including drafts sees a key if and only if its row exists, one excluding them if and only if it was besides made live at or after its last write; the row carries that write's value and time, the time of the create of its life and, as version, the number of writes of that life |
| StoreRuns.ReaderSeesFold | src/storage/sqlite_config_store.cpp:212-224 | what getConfig returns, every field or nothing, from the run alone, with and without drafts |
| StoreRuns.ListingIsLookups | src/storage/sqlite_config_store.cpp:226-236 | a listing holds exactly the namespace's rows that a lookup finds, as it finds them |
| StoreRuns.LogIsLedger | src/storage/sqlite_config_store.cpp:117-207 | in every run the log and the version table are, entry by entry and field by field, what the run owes |
| StoreRuns.DeletionsAreLogged | src/storage/sqlite_config_store.cpp:199-207 | the logged deletions of a row are, one for one and in order, the deletions asked for, removed or not, with id, key, operator and time |
| StoreRuns.DraftEditHidesLiveKey | src/storage/sqlite_config_store.cpp:155-160 | a draft edit hides a live key until the next publish, which shows the edit |
| TransactionWindows.TablesAreOutsideRun | src/storage/sqlite_config_store.cpp:416-429 | in every sequence of whole calls and the begins and rollbacks of grayscale publishes the tables are the run of the operations outside all windows, then of those inside the open one, and a rollback restores the former |
| TransactionWindows.WriteSurvivesIffOutside | src/publish/publish_engine.cpp:67-87 | with no window open the version table holds exactly the entries of the writes the state carries, in order, and a write that reported success is among them if and only if it lies in no window |
| TransactionWindows.ThrowsOnNesting | src/storage/sqlite_config_store.cpp:416-429 | inside a window a begin and a publish throw, outside one a rollback does, without effect |
| TransactionWindows.ReportedWriteIsLost | src/publish/publish_engine.cpp:67-87 | a create reported as done between another caller's begin and rollback leaves no trace |
| StatementRuns.StatementsMakeStep | src/storage/sqlite_config_store.cpp:100-365 | the statements of each of the six calls, built from its arguments and the row it read and run to the end, with a refused insert ending a create, are the operation |
| StatementRuns.TablesAreStatements | src/storage/sqlite_config_store.cpp:416-429 | in every interleaving of single statements with begins and rollbacks the tables are what the statements outside windows make, then those of the open transaction, and a rollback restores the former |
| StatementRuns.UncutRunsAreCallRuns | src/storage/sqlite_config_store.cpp:100-365 | when no window opens or closes inside a call, the tables and those to restore are the ones of the run of whole calls, whenever the mutex is free |
| TornCalls.AuditTrailDrift | src/storage/sqlite_config_store.cpp:117-181 | over every interleaving version entries and rolled-back windows closed midway through a write equal logged changes and those opened midway; without such windows they match one for one |
| TornCalls.RollbackLeaves | src/storage/sqlite_config_store.cpp:426-429 | a rollback inside a call leaves the saved tables with the rest of the call on top |
| TornCalls.BeginLeaves | src/storage/sqlite_config_store.cpp:416-429 | a begin inside a call leaves, once rolled back and whatever happened in between, what the call had done by then |
| TornCalls.TornByBegin | src/storage/sqlite_config_store.cpp:100-184 | a write cut by a begin: the log matches the versions if and only if the cut is not between their inserts; the write is whole or absent if and only if the cut is at an end; the chain holds there, or for a create that repeats the last logged change, and nowhere else |
| TornCalls.TornByRollback | src/storage/sqlite_config_store.cpp:100-184 | a write cut by a rollback to any saved tables: the same for the match; whole or absent if and only if the cut is at its end, or at its start and it finds what it read; and exactly when the chain holds |
| TornCalls.OtherRowsStayChained | src/storage/sqlite_config_store.cpp:100-184 | a cut write breaks no other row's chain |
| TornCalls.CutUpdateBreaksChain | src/storage/sqlite_config_store.cpp:143-184 | a reachable update cut after its first statement leaves no row, one version and a logged update that continues nothing |
| TornCalls.TornDelete | src/storage/sqlite_config_store.cpp:186-210 | a cut deletion leaves a removal without log, or its full log entry without removal, and is whole or absent if and only if there was nothing to remove |
| TornCalls.TornDeleteKeepsTrail | src/storage/sqlite_config_store.cpp:186-210 | a cut deletion breaks neither the match nor a chain |
| PublishEngine.PublishEngine.PublishGrayscale | src/publish/publish_engine.cpp:67-87 | uninterrupted on SQLite it always fails and changes nothing, and throws when a transaction is open |
| PublishEngine.PublishEngine.FullRollout | src/publish/publish_engine.cpp:89-102 | succeeds if and only if the release is active; then exactly that one is retired and one is added, of the given namespace and operator, with version 0, type full, status active, the next id and a note naming the release |
| EngineRuns.EngineRunIsStoreRun | src/publish/publish_engine.cpp:24-102 | every sequential engine run is a store run, so the store theorems hold of it |
| EngineRuns.MaxIsCount | src/storage/sqlite_config_store.cpp:338-348 | when a namespace's numbered releases are 1..n the publish query yields n, rollout records notwithstanding |
| EngineRuns.ReleaseVersionsAreConsecutive | src/storage/sqlite_config_store.cpp:325-365 | in every engine run the nonzero release versions of a namespace are 1..n in id order, n its successful publishes |
| EngineRuns.ReleasesAreMade | src/publish/publish_engine.cpp:38-102 | in every engine run the release table holds, field by field and in order, one record for each successful publish and rollout, retired if and only if rolled out since; the next rollout succeeds if and only if its release is there and was not rolled out |
| EngineRuns.ZeroVersionsAreRollouts | src/publish/publish_engine.cpp:89-102 | the version-0 releases of a namespace are its successful rollouts, in order, with their operators and notes |
| EngineRuns.NotesNameReleases | src/publish/publish_engine.cpp:97 | two rollout notes are equal if and only if they name the same release |
| EngineRuns.StepReleases | src/publish/publish_engine.cpp:89-102 | ids stay unique, and a release changes only from active to retired |
| EngineRuns.ActivesEqualPublishes | src/publish/publish_engine.cpp:38-102 | active releases number exactly the successful publishes |
| EngineRuns.NoSecondRollout | src/publish/publish_engine.cpp:89-93 | no release id is rolled out twice in a sequential run |
| ConcurrentRollouts.ActivesUnderInterleaving | src/publish/publish_engine.cpp:89-102 | in every interleaving of the regions of rollouts and publishes the active releases and the rollouts between retire and create add up to the publishes and the doubled retirements, which are none if and only if no two rollouts have retired the same release |
| ConcurrentRollouts.ActivesWhenDone | src/publish/publish_engine.cpp:89-102 | once all rollouts are done the active releases equal the publishes if and only if no release was rolled out twice |
| ConcurrentRollouts.OverlappingRolloutsDouble | src/publish/publish_engine.cpp:90-101 | two callers that both check before either retires double the release |
| EngineRuns.OnlyFirstDraftCounts | src/publish/publish_engine.cpp:24-31 | after a publish the first draft of a key takes effect and stays; every later one returns false and leaves all four tables unchanged |
| ConcurrentDrafts.InterleavingIsStoreRun | src/publish/publish_engine.cpp:24-31 | every interleaving of draft additions and other calls is a store run, so the store theorems hold of it |
| ConcurrentDrafts.DraftLandsIff | src/publish/publish_engine.cpp:24-31 | in every interleaving an addition takes effect if and only if it read a live row and finds one or read none and finds none, where a row was live if made so at or after its last write; otherwise no table changes |
| ConcurrentDrafts.OverlappingDrafts | src/publish/publish_engine.cpp:24-31 | of additions to a key that nothing else touches, from a live row exactly those take effect that read before the first wrote, from an absent one exactly the first to write, over a draft none |
| ConcurrentDrafts.SecondDraftReplacesFirst | src/publish/publish_engine.cpp:24-31 | two callers that both read before either writes: the second replaces the first's draft |
| MysqlStore.MysqlConfigStore.PublishRelease | src/storage/mysql_config_store.cpp:648-696 | blocks exactly on an empty pool; an exception restores the tables and leaves the caller's release alone; otherwise each statement's own result decides; the connection goes back |
| MysqlStore.MysqlConfigStore.PublishGrayscale | src/publish/publish_engine.cpp:67-87 | on MySQL it blocks if and only if fewer than two connections are idle; otherwise it returns true even when the publish inside failed, the caller's release is the published one, or its own, marked grayscale with percentage and whitelist, the stored one says full, and two connections are gone |
| BackendSimulation.StepRelated | src/storage/mysql_config_store.cpp:336-468 | one operation on both backends keeps them related, and the returned flags differ if and only if it creates an existing row |
| BackendSimulation.StepAlikeIff | src/storage/mysql_config_store.cpp:336-696 | from alike tables one operation keeps them alike if and only if a create of a new row, a publish that does not fail or a release insert names an existing namespace |
| BackendSimulation.BackendsAgreeWithoutRollback | src/storage/mysql_config_store.cpp:336-696 | from any tables with equal configs and releases equal up to timestamps, a run of writes, publishes and release operations keeps them so at every point if and only if each operation meets that guard in its turn |
| BackendSimulation.BackendsAgree | src/storage/mysql_config_store.cpp:336-696 | the same for runs that also roll back, with version queries in insertion order |
| BackendSimulation.SameNextVersion | src/storage/mysql_config_store.cpp:656-663 | both backends number the next release alike |
| BackendSimulation.ReadersAgree | src/storage/mysql_config_store.cpp:420-468 | after every such run getConfig, listConfigs and the next release version agree |
| BackendSimulation.ListingsAgreeIff | src/storage/mysql_config_store.cpp:443-468 | the two live listings of a table agree if and only if every status is draft or live |
| BackendSimulation.UnorderedRollbackMayDiffer | src/storage/mysql_config_store.cpp:494-520 | after a repeated create MySQL has a version 1 that SQLite lacks, which an unordered rollback may pick |
| BackendSimulation.InsertedReleases | src/storage/mysql_config_store.cpp:560-583 | an inserted release keeps its own time on SQLite and gets the server's on MySQL |
| BackendSimulation.RollbackStep | src/storage/mysql_config_store.cpp:494-520 | on either backend a rollback succeeds if and only if row and version entry exist, and is then a draft update to the value of such an entry |
| BackendSimulation.MysqlLogMatchesVersions | src/storage/mysql_config_store.cpp:346-418 | on MySQL too, in every run, the log is what the operations owe, field by field, and its non-delete entries are the version entries one for one |
| BackendSimulation.RowsHaveNamespaces | src/storage/mysql_config_store.cpp:336-357 | in every run each row's namespace exists |
| BackendSimulation.PublishStoresIffNamespaceExists | src/storage/mysql_config_store.cpp:648-690 | after every run a publish whose update succeeds reports success, changes nothing if and only if the namespace does not exist, and otherwise makes every row of it live and adds one release, given field by field |
| BackendSimulation.PublishWholeIff | src/storage/mysql_config_store.cpp:654-690 | after every run a publish that reports success is stored whole or not at all if and only if the update succeeds, the namespace does not exist or no row of it was waiting to be made live |
| BackendSimulation.IgnoredUpdateSplitsPublish | src/storage/mysql_config_store.cpp:654-690 | after one create, a publish whose ignored update fails adds a release and leaves the row a draft that no live reader sees |
| ConnectionPool.EachConnectionOnce | src/storage/mysql_config_store.cpp:30-42 | in every run of any number of threads each connection is idle once, held once or lost once |
| ConnectionPool.HoldersAreExclusive | src/storage/mysql_config_store.cpp:30-42 | a held connection is not idle and no other thread holds it |
| ConnectionPool.RunInv | src/storage/mysql_config_store.cpp:30-42 | idle, held and lost add up to the pool size, and while a thread sleeps no idle connection lacks a woken waiter |
| ConnectionPool.StuckOnlyWhenAllLost | src/storage/mysql_config_store.cpp:30-42 | a blocked thread always has a woken waiter or a holder to wait for, unless every connection is lost |
| ConnectionPool.IdleConnectionIsClaimed | src/storage/mysql_config_store.cpp:38-42 | an idle connection beside a sleeper is about to be taken by a woken waiter |
| ConnectionPool.FirstInFirstOut | src/storage/mysql_config_store.cpp:30-42 | in every run the connections handed out, followed by those idle, are those idle at first followed by those given back |
| ConnectionPool.ServedAtOnce | src/storage/mysql_config_store.cpp:30-36 | a thread that finds a connection idle gets one at once, and otherwise only goes to sleep |
| ConnectionPool.IdleWhenQuiet | src/storage/mysql_config_store.cpp:805-821 | when nobody holds, exactly the connections of explicit transaction calls are missing |
| ConnectionPool.AllLostServesNobody | src/storage/mysql_config_store.cpp:805-821 | once all are lost no thread ever holds a connection again |
| ConnectionPool.GrayscaleTakesTwo | src/publish/publish_engine.cpp:67-87 | an uninterrupted grayscale publish by any thread among others of which none waits costs two connections and changes no thread |
| ConnectionPool.GrayscalesDrain | src/publish/publish_engine.cpp:67-87 | in every interleaving of any number of threads whose explicit calls all belong to finished grayscale publishes, k publishes leave size - 2k idle once nobody holds a connection |
| ConnectionPool.NextGrayscaleBlocks | src/publish/publish_engine.cpp:67-87 | with fewer than two left and every thread outside, the next grayscale publish by any thread takes the rest and blocks, and in no continuation does any thread hold a connection |
| SqlLiteral.Escape | src/storage/mysql_config_store.cpp:53-61 | the loop produces the escaped text |
| SqlLiteral.QuotedRoundTrip | src/storage/mysql_config_store.cpp:53-61 | a quoted value before any statement text reads back as that value and leaves that text if and only if the text does not go on with a quote |
| SqlLiteral.ListRoundTrip | src/storage/mysql_config_store.cpp:342-353 | every list of strings, escaped, quoted and joined, reads back as that list and leaves exactly the rest |
| SqlLiteral.InsertReadsBack | src/storage/mysql_config_store.cpp:342-344 | the insert of createConfig is read with namespace, key and value unchanged and a first draft after them |
| ConnectionString.MysqlSettings.Initialize | src/storage/mysql_config_store.cpp:63-84 | assigns the parsed fields, and on a bad port leaves them as the exception does |
| ConnectionString.RoundTrip | src/storage/mysql_config_store.cpp:63-84 | print then parse recovers all five parts if and only if host has no ':', '/' or '@', user no ':' or '@', password no '@', and the port fits 16 bits |
| ConnectionString.NumericPortRoundTrip | src/storage/mysql_config_store.cpp:63-84 | the same for a port printed from a number |
| ConnectionString.DefaultPortRoundTrip | src/storage/mysql_config_store.cpp:63-84 | without a port the text parses with port 3306 and all parts recovered, if and only if the parts are separable |
| ConnectionString.PortTextDecides | src/storage/mysql_config_store.cpp:69-76 | what std::stoi reads of the port text, cut to 16 bits, is the port; when it throws, host and port stay joined and nothing else is assigned |
| ConnectionString.WithoutCredentials | src/storage/mysql_config_store.cpp:78-82 | without a colon after the slash user and password stay as they were |
| ConnectionString.WithoutAt | src/storage/mysql_config_store.cpp:84 | without an at sign the database is the whole text |
| ConnectionString.BareText | src/storage/mysql_config_store.cpp:63-84 | text without separators is both host and database |
| ConnectionString.StoiReads | src/storage/mysql_config_store.cpp:74 | white space, sign, digits and anything after them give the signed number if it fits an int |
| ConnectionString.StoiThrows | src/storage/mysql_config_store.cpp:74 | no digit where the number should begin throws |
| Namespaces.IdSplitsBack | src/storage/namespace_manager.cpp:26-29 | an id splits into its four parts if and only if none holds a slash |
| Namespaces.ValidNameIff | src/storage/namespace_manager.cpp:158-172 | a key name is valid if and only if it has 1 to 128 characters, all letters, digits, dots, underscores or hyphens |
| Namespaces.ValidKeysFormLives | src/storage/namespace_manager.cpp:158-172 | valid key names keep every row's version entries in lives |
| Namespaces.ResolvesToNearest | src/storage/namespace_manager.cpp:143-155 | resolution yields a row if and only if the parent chain reaches a namespace with that live entry before any other, and nothing if and only if it ends without one |
| Namespaces.ReturnsIffStops | src/storage/namespace_manager.cpp:143-155 | resolution returns if and only if its chain repeats no namespace before it answers, and then within one call more than there are namespaces |
| Namespaces.ReturnsAlwaysIffNoCycle | src/storage/namespace_manager.cpp:143-155 | it returns for all configs and keys if and only if the parent graph has no cycle |
| Namespaces.SelfParentNeverReturns | src/storage/namespace_manager.cpp:150-152 | a self-parent returns for no fuel unless it has a live entry |
| Namespaces.CarefulRunsHaveNoCycle | src/storage/namespace_manager.cpp:110-131 | runs that name existing parents and reuse no deleted id have no cycle, so every resolution returns |
| Namespaces.ReusedIdMakesCycle | src/storage/namespace_manager.cpp:110-131 | reusing a deleted id closes a cycle although every parent existed |
| Namespaces.CreationClosesCycleIff | src/storage/namespace_manager.cpp:110-127 | from a graph without cycles a creation under a parent closes a cycle if and only if the chain from that parent reaches the new id |
| Namespaces.RootClosesNothing | src/storage/namespace_manager.cpp:110-127 | a creation without a parent closes none |
| Namespaces.RegistryIsFold | src/storage/namespace_manager.cpp:110-131 | a namespace exists, with the parent its creation named, from a creation under a registered application until its deletion |
| Namespaces.RegistryReports | src/storage/namespace_manager.cpp:32-131 | a registration succeeds if and only if the application is new, a creation if and only if the application is registered and the id free |
| Strings.FindSpec | src/server/http_server.cpp:131-137 | the first occurrence at or after a position, or none |
| Routing.WholeSegment | src/server/http_server.cpp:82 | searching for a segment between slashes finds it if and only if the id has that segment |
| Routing.KeysUrlRoundTrip | src/server/http_server.cpp:82-92 | the keys URL always reaches its branch, and id and key come back if and only if no segment of the id is "keys" |
| Routing.PublishUrlRoundTrip | src/server/http_server.cpp:94-97 | the publish URL returns its id if and only if no segment is "keys" and no later one starts with "publish" |
| Routing.ReleasesUrlRoundTrip | src/server/http_server.cpp:99-102 | the releases URL returns its id if and only if no segment is "keys", none starts with "publish" and no later one with "releases" |
| Routing.AppUrlRoundTrip | src/server/http_server.cpp:62-69 | the application URL returns its id if and only if no segment starts with "namespaces" |
| Routing.AppNamespacesUrlRoundTrip | src/server/http_server.cpp:71-76 | its namespaces URL returns the id if and only if no later segment starts with "namespaces" |
| Routing.NotificationQueryNotFound | src/server/http_server.cpp:104-110 | a notification URL with a query string is never found |
| Routing.FixedRoutes | src/server/http_server.cpp:44-107 | exactly which URL and method reach health, login, the two application routes, namespace creation and notifications |
| Routing.OtherMethods | src/server/http_server.cpp:48-80 | other methods on these URLs are not found or, for applications, unhandled |
| Routing.UnhandledMethods | src/server/http_server.cpp:62-92 | key and application URLs answer other methods with an empty body |
| Routing.KeysWithoutNamespace | src/server/http_server.cpp:82-86 | a keys URL without a namespace reaches the key with an empty one |
| HttpApi.KeyRequests | src/server/http_server.cpp:82-92 | for ids without the segment "keys", put and delete reach the store with namespace, key, value and operator unchanged, and get answers value and version of the row unless it is absent or a draft |
| HttpApi.PublishRequest | src/server/http_server.cpp:94-97 | a publish request publishes its namespace and answers with the new id and version, or fails with 500 and changes nothing |
| HttpApi.OtherRequests | src/server/http_server.cpp:44-112 | other requests touch no table, and one that matches no route is answered 404 |
| HttpApi.PutPublishGet | src/server/http_server.cpp:223-260 | put, publish, get returns the value put if and only if the key had no other unpublished value; the version is 1 for a new key, one more for a published one, the draft's for a drafted one |
| HttpApi.SecondPutIsLost | src/server/http_server.cpp:229-240 | a second put before a publish reports success and changes no table |
| HttpApi.DeleteRemovesIffDraft | src/server/http_server.cpp:242-245 | a delete always reports success, and the key is gone, at once and after a publish, if and only if it was absent or a draft |
| HttpApi.DroppedEditLosesKey | src/server/http_server.cpp:229-245 | a put followed by a delete removes the key, whatever was published |

## Left out

- TornCalls.AuditTrailDrift: when as many windows open as close midway through writes the entries are equally many but may still differ; only their number is stated for that case.
- EngineRuns.EngineRunIsStoreRun: speaks of sequential engine runs; ConcurrentDrafts and ConcurrentRollouts interleave draft additions and rollouts.
- Statement failures other than a refused insert are modelled inside publishes only.
- MySQL statements of concurrent calls are not interleaved: MySQL runs are sequences of whole calls, and only the pool is modelled with threads.
- BackendSimulation.BackendsAgree: needs version queries to return matches in insertion order when the run holds a rollback; BackendSimulation.UnorderedRollbackMayDiffer shows why.
- BackendSimulation.StepRelated: assumes that a release insert that MySQL refuses or rolls back consumes no AUTO_INCREMENT value, so that release ids stay equal; and the set of existing namespaces is fixed during a run.
- SqliteStore.SqliteConfigStore.ListConfigs: the order of the returned rows is left to the database, so the result is a map.
- getConfigVersions, getReleases and getChangeHistory: their order rests on the database or on one-second timestamps.
- int32 overflow of versions is undefined in C++ and not modelled; StoreRuns.VersionBound says how long a run must be to reach it.
- MySQL collations, character sets and the NO_BACKSLASH_ESCAPES mode are not modelled.
- Connection strings and URLs are modelled over characters, not bytes; sockets, HTTP and JSON decoding are not modelled, and a request body is its decoded value.
- Callbacks that call back into the channel, which would deadlock on its mutex.
- Applications beyond registration, environments, clusters, approvals and users: single-row writes and lookups.
- Authentication, the YAML parser, the gRPC services, the release rule engine and the client SDK.
