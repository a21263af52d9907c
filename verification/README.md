# OneAuth backend: a verified model

This project models the stateful cores of OneAuth's Go server and proves what they keep. Database tables and
the key-value store are finite maps, a transaction is one atomic step unless the point is how steps interleave,
and row ids, codes, tickets and tokens are fresh values. Code that updates tables, buffers or fields in place is
a class whose methods are proved against a function of the old state; what the system promises is then proved
about that function, over every input, every run or every interleaving.

`dafny verify dfyconfig.toml` checks everything.

## What is modelled

**Directory sync.** `DeptPaths` is the path algebra (trimming, parent, leaf, depth, prefix order), `DeptForest`
the parent relation of the department table, `DeptIndex` the walk that reads a department's path off the table,
`RemotePaths` the prefix-closed set of remote paths and its processing order. `AutoSync`, `AutoSyncExact`,
`AutoSyncRerun`, `AutoSyncSettled`, `DirectorySync` and `DirectorySyncService` are automatic mode; `MappedSync`,
`MappedRuns`, `MappedDryRun`, `MappedPlaces`, `MappedTargets`, `MappedSnapshot` and `MappedService` mapping mode;
`MappingRoots` the pruning of mapped roots and the snapshot filter.
`UniqueNames` and `UserImport` are the user half of a sync, `ImportBuffer` the buffer an administrator edits
between pull and import. `Departments` holds move, subtree listing, tree building and the reset.

**One-time credentials and tokens.** `TtlStore` is the key-value store with deadlines and its collector,
`OneTime` the protocol of Get, Del and answer shared by authorization codes, CAS tickets, captcha challenges and
tickets and WeCom states, `RefreshRotation` refresh tokens with atomic handlers, `RefreshRaces` the same with
interleaved steps, `Sessions` the session index over the store.

**Small concurrent protocols.** `Mailbox` is the scheduler's one-slot interval channel, `SiteUrlCache` the
cached site URL with its invalidation after the write.

**Counters and encoders.** `DailyRollup` is the daily probe row, `Lockout` the login lockout, `Base64` the
mailer's encoder. `Options`, `PrimaryKeys` and `Sorting` are shared vocabulary: gorm's `First` picks the lowest
primary key, `sort.Slice` leaves a sorted rearrangement.

## What the proofs found

Where a natural claim is false of the code, the code is modelled as it is, a lemma shows an input that breaks the
claim, and the exact condition is proved.

- Automatic sync lays the remote tree out correctly exactly when it starts sound (`CorrectIffSound`). A remote
  department that is renamed while another takes over its old name breaks this: both are laid on one local row
  (`ReusedNameMerges`, `RenameAndReuseMerges`).
- A dry run of an automatic sync writes: storing the snapshot lays the departments out and commits whatever the
  dry-run flag is, and applying it afterwards finds everything in place (`SecondLayoutIsIdle`). Dry and real syncs
  leave the same department table (`Sync`); `DryRunCanWrite` is a concrete case, and departments and bindings are
  left alone exactly when they were settled (`UnchangedIffSettled`, `SettledPathByPath`).
- So does a dry run in mapping mode, for the same reason: it leaves the same rows and the same bindings of mapped
  roots and paths as a real sync and only lacks the "path:" bindings of matched remote departments
  (`MappedDirectory.Sync`; `DrySyncWrites` and `DrySyncCanWrite` are inputs on which it writes). It leaves rows and
  bindings alone exactly when every mapping's target was found and every path of the layout in place and bound to
  its department; a real one, when matched departments were bound as well; and either leaves the tables so
  (`MappedDirectory.Sync`, `TargetsKeepIff`, `SettledIff`).
- Mapped paths need not get departments of their own: two of them share one exactly when the table had them at the
  same place, with the same lowest existing department on the way down and the same names missing below it
  (`SharedIffSamePlace`), and a layout creates one department for every place with names missing (`CountsByPlace`).
- Resetting managed departments keeps the table a forest exactly when none of them stands above the mount
  (`ResetKeepsForestIff`); otherwise the kept child above the mount is hung under the mount and closes a cycle
  (`ResetCanCloseCycle`).
- `trimSlashes` is not idempotent: `"/ a"` needs a second pass (`TrimSlashesTwice`, `TrimSlashesUnstable`).
- Pruning mapped roots can widen the filter: a root of slashes only hides the others (`PrunedScopeIff`,
  `SlashRootsHideTheRest`, `SlashHidesB`); over all snapshots the pruned list filters as the full one exactly when
  none is hidden (`PrunedFilterIff`), as none is among normalised paths (`NormalisedRootsFilterAlike`).
- Collector sweeps are invisible exactly when no `Incr` continues from an expired entry (`SweepsTransparentIff`,
  `SweepCanShow`).
- Overlapping requests can redeem a one-time value twice (`RaceGrantsTwice`); two answered requests that pass every
  check both succeed exactly when they overlapped (`BothSucceedIffOverlapped`).
- Overlapping refreshes can fork a chain (`OverlapForksChain`); a state is safe from that exactly when no chain
  stores two tokens and every refresh under way has its chain to itself (`SafeIffPendingOwns`). A refresh under way
  can outlive a revocation (`RefreshOutlivesRevoke`); a revocation ends the chain exactly when there is none
  (`RevokeEndsIff`, `EndedIffIdle`).
- The console's refresh never checks the client: it renews another client's token (`ConsoleRenewsForeignToken`),
  and that is the only way a token is renewed for a client other than its chain's (`RenewedForAnotherIff`).
- Two `SetInterval` calls at once can leave the older interval in force with the newer one stored, after which
  asking for the newer one again is ignored (`TwoCallersCanLose`); the newest interval is honoured exactly when the
  last call to send is the last to have stored (`SettledIffLastSenderIsNewest`). A live loop can still lose it
  exactly when it is lost already with nobody calling, or a call under way carries another interval than the stored
  one (`CanLoseIff`). Calls can also block (`TwoCallersCanBlock`), exactly when one is blocked already or two or more
  are under way and are not just two that have done nothing but store, before an empty slot (`CanBlockIff`).
- Failures are counted under the folded login name and the account is looked up by the exact one, so unlocked
  accounts stay below the threshold exactly when no submitted name that resolves to nobody folds to an account's
  name (`BoundedIffNoStrays`, `OtherSpellingOverflows`).
- An edit in the import buffer survives exactly as long as every pull has the user in scope
  (`EditInHistorySurvivesIff`).
- The truncated running mean drifts by up to (n-1)/2, and times 0, 1, ..., n-1 are reported as 0
  (`DriftIsReached`).

## Model

| member | source | states |
|---|---|---|
| `DeptPaths.TrimSlashesLoop` | sso-server/internal/service/directory_sync_service.go:2864-2871 | the replacement loop ends and computes the collapsed, trimmed form |
| `DeptPaths.TrimSlashesTwice` | sso-server/internal/service/directory_sync_service.go:2864-2871 | trimming again changes nothing exactly when what stands between the outer slashes of the input has no outer space |
| `DeptPaths.TrimSlashesUnstable` | sso-server/internal/service/directory_sync_service.go:2864-2871 | the family on which trimming is not idempotent |
| `DeptPaths.PathSplits` | sso-server/internal/service/directory_sync_service.go:2873-2889 | a trimmed path is its parent, a slash and its leaf |
| `DeptPaths.ParentIsShallower` | sso-server/internal/service/directory_sync_service.go:2873-2896 | the parent has smaller depth, so sorting by depth puts parents first |
| `DeptPaths.TightPathsAreStable` | sso-server/internal/service/directory_sync_service.go:2850-2871 | a remote path without whitespace at its ends or next to a slash gives local paths that are stable under trimming, ancestors included |
| `DeptPaths.CoversLinear` | sso-server/internal/service/directory_sync_service.go:990-1003 | the covers of one path are linearly ordered, so the longest one is unique |
| `DeptPaths.PrefixIsStripped` | sso-server/internal/service/directory_sync_service.go:2850-2862 | the stripped prefix itself leaves nothing, and what is written below it leaves exactly that |
| `DeptPaths.OtherPathsAreKept` | sso-server/internal/service/directory_sync_service.go:2850-2862 | without a prefix, or outside it, a path is only trimmed |
| `DeptPaths.PrefixesAreCovers` | sso-server/internal/service/directory_sync_service.go:2255-2278 | the ancestors of a path in normal form are the non-empty paths that cover it |
| `DeptPaths.DepthCountsAncestors` | sso-server/internal/service/directory_sync_service.go:2891-2896 | the depth of a path in normal form is the number of its non-empty ancestors, itself included |
| `DeptForest.AcyclicIffNoCycle` | sso-server/internal/model/user.go:53-60 | every parent chain of the table ends exactly when no row is its own proper ancestor |
| `DeptIndex.DepartmentRelativePath` | sso-server/internal/service/directory_sync_service.go:2227-2253 | the visited-set walk stops on every table, cyclic ones included, and yields the names from below the mount down to the department |
| `DeptIndex.RelPathStep` | sso-server/internal/service/directory_sync_service.go:2227-2253 | a department's path is its parent's path extended by its name |
| `DeptIndex.BuildDepartmentPathIndex` | sso-server/internal/service/directory_sync_service.go:2208-2225 | the loop builds the path index in query order |
| `DeptIndex.PathIndexReadsBack` | sso-server/internal/service/directory_sync_service.go:2208-2225 | the index has exactly the readable paths, each at a department that reads back at it |
| `RemotePaths.CollectRemoteDepartmentPaths` | sso-server/internal/service/directory_sync_service.go:2255-2278 | the collected set is every path a department or a user mentions, stripped of the prefix, with all its ancestors |
| `RemotePaths.CollectedIff` | sso-server/internal/service/directory_sync_service.go:2255-2278 | a path is collected exactly when it is what some raw path leaves of the stripped prefix, or an ancestor of that |
| `RemotePaths.PrefixSaidTwice` | sso-server/internal/service/directory_sync_service.go:2255-2278 | on trimmed segments the prefix, or a path below it, is collected exactly when a raw path says the prefix twice over |
| `RemotePaths.CollectedClosed` | sso-server/internal/service/directory_sync_service.go:2255-2278 | collected paths are non-empty and closed under parent |
| `RemotePaths.ProcessingOrderUnique` | sso-server/internal/service/directory_sync_service.go:1310-1317 | depth and then string order determine the processing order, whatever order the map is iterated in |
| `RemotePaths.ProcessingOrderSays` | sso-server/internal/service/directory_sync_service.go:1310-1317 | a path is processed after every shallower one, and among equally deep ones after those that are smaller where they first differ or proper prefixes of it |
| `AutoSync.StepSays` | sso-server/internal/service/directory_sync_service.go:1318-1370 | one path: below its parent's department or the mount, on the live department its key is bound to, else the live one it is indexed at, else a new one |
| `AutoSync.RunBinds` | sso-server/internal/service/directory_sync_service.go:1322-1370 | every processed path is indexed at a live department and its key is bound to it |
| `AutoSync.RunUntouched` | sso-server/internal/service/directory_sync_service.go:1322-1370 | a row no path is laid on keeps every field |
| `AutoSync.LastWriter` | sso-server/internal/service/directory_sync_service.go:1336-1368 | a row carries the name, parent and mark of the last path laid on it |
| `AutoSync.PicksAreStatic` | sso-server/internal/service/directory_sync_service.go:1336-1352 | with distinct keys the department of every path is settled before the run |
| `AutoSyncExact.CorrectIffSound` | sso-server/internal/service/directory_sync_service.go:1298-1372 | from any forest, all paths read back at departments in a forest exactly when mount, trimming, keys and picked departments are sound beforehand |
| `AutoSyncExact.FirstRun` | sso-server/internal/service/directory_sync_service.go:1298-1372 | without bindings each path gets its own department, walking to the mount spells it, the table stays a forest, other rows are untouched |
| `AutoSyncExact.BoundRun` | sso-server/internal/service/directory_sync_service.go:1336-1370 | with every key bound to its own department none is created, ids are kept and each is renamed or moved to read back at its path |
| `AutoSyncExact.ReusedNameMerges` | sso-server/internal/service/directory_sync_service.go:1336-1352 | a new department under the old name of a still bound one is laid on the same row |
| `AutoSyncExact.RenameAndReuseMerges` | sso-server/internal/service/directory_sync_service.go:1336-1352 | a concrete rename and reuse after which one path no longer reads back |
| `AutoSyncRerun.RerunChangesNothing` | sso-server/internal/service/directory_sync_service.go:1298-1372 | a second run from any first run's result rewrites every row and binding to what it is |
| `AutoSyncRerun.ApplyTwice` | sso-server/internal/service/directory_sync_service.go:1182-1240 | sync and follow-up loop, done twice, equal once |
| `AutoSyncSettled.UnchangedIffSettled` | sso-server/internal/service/directory_sync_service.go:1298-1372 | a run changes neither departments nor bindings exactly when every key is bound to a live department and the last path on each key and department is what binding and row say |
| `AutoSyncSettled.SettledPathByPath` | sso-server/internal/service/directory_sync_service.go:1298-1372 | with distinct keys and departments: exactly when each path's binding and row already say that path |
| `AutoSyncSettled.SecondLayoutIsIdle` | sso-server/internal/service/directory_sync_service.go:509-530 | the layout inside the applying transaction finds everything the storing transaction laid out and changes nothing |
| `AutoSyncSettled.DryRunCanWrite` | sso-server/internal/service/directory_sync_service.go:593-625 | a concrete state and snapshot on which a dry run creates a department and a binding |
| `DirectorySync.ItemsWellOrdered` | sso-server/internal/service/directory_sync_service.go:1304-1321 | processing order lists each path once and its parent before it |
| `DirectorySync.DistinctIDsGiveDistinctKeys` | sso-server/internal/service/directory_sync_service.go:1325-1335 | distinct external ids give distinct binding keys |
| `DirectorySync.BindingKeySays` | sso-server/internal/service/directory_sync_service.go:1304-1335 | the binding key is the last department of the path's external id, else its id, else the path |
| `DirectorySync.FirstSyncLaysOutTree` | sso-server/internal/service/directory_sync_service.go:1298-1372 | for a snapshot with stable paths and distinct ids the first sync maps every collected path to a department that spells it, in a forest |
| `DirectorySync.SecondSyncIsIdentity` | sso-server/internal/service/directory_sync_service.go:1182-1372 | syncing a snapshot again leaves departments and bindings as they are, from any starting state |
| `DirectorySync.FirstContactLaysOut` | sso-server/internal/service/directory_sync_service.go:1298-1372 | from the raw snapshot: trimmed segments and distinct ids suffice for every path to be bound to a department that spells it, in a forest |
| `DirectorySyncService.Directory.EnsureDepartment` | sso-server/internal/service/directory_sync_service.go:1322-1370 | one path is one step of the specified run, binding first, index second, creation last |
| `DirectorySyncService.Directory.EnsureAutomaticDepartments` | sso-server/internal/service/directory_sync_service.go:1298-1372 | the whole method is the specified run over the snapshot's paths |
| `DirectorySyncService.Directory.MatchPaths` | sso-server/internal/service/directory_sync_service.go:1182-1240 | the follow-up loop creates no department |
| `DirectorySyncService.Directory.SyncDepartments` | sso-server/internal/service/directory_sync_service.go:1138-1240 | the department half of applySnapshot, dry or not, with nothing created by the follow-up loop |
| `DirectorySyncService.Directory.Sync` | sso-server/internal/service/directory_sync_service.go:499-547 | the two layouts of a whole sync: dry and real leave the same departments, a dry run changes nothing exactly when the tables were settled, and after first contact every path is laid out |
| `Departments.DepartmentTable.Move` | sso-server/internal/handler/misc_handler.go:153-218 | terminates, accepts exactly when the new parent is outside the subtree, keeps the forest, changes one parent |
| `Departments.MoveUnderDescendantCloses` | sso-server/internal/handler/misc_handler.go:186-206 | a move the check refuses would close a cycle |
| `Departments.GetChildIDs` | sso-server/internal/repository/misc_repo.go:52-66 | lists the department and every row below it, each once, in whatever order the queries answer |
| `Departments.BuildTree` | sso-server/internal/handler/misc_handler.go:48-71 | the pass over the rows builds the roots and the child list of every row |
| `Departments.TreePlacesOnce` | sso-server/internal/handler/misc_handler.go:48-71 | every department is in exactly one list of the tree, once |
| `Departments.TreeShowsAllIffForest` | sso-server/internal/handler/misc_handler.go:48-71 | every department is reachable from the roots exactly when the table is a forest |
| `Departments.ManagedAre` | sso-server/internal/service/directory_sync_service.go:402-418 | a reset deletes exactly the departments that carry a mark a sync leaves on those it creates |
| `Departments.ResetTables.ResetManagedDepartments` | sso-server/internal/service/directory_sync_service.go:394-471 | the new departments, users, bindings, buffer and mappings after a reset and its three counts; no user and no department points at a deleted row |
| `Departments.ResetKeepsForestIff` | sso-server/internal/service/directory_sync_service.go:405-447 | a reset keeps the forest exactly when no deleted department is at or above the fallback |
| `Departments.ResetCanCloseCycle` | sso-server/internal/service/directory_sync_service.go:405-447 | a concrete reset that closes a cycle |
| `MappedService.MappedDirectory.FindOrCreateMappedChild` | sso-server/internal/service/directory_sync_service.go:1574-1593 | the first child of that name, else a new row, or in a dry run a fresh id and no row |
| `MappedRuns.SubtreeIsSpelled` | sso-server/internal/service/directory_sync_service.go:1499-1572 | a collected path below its longest mapped root resolves to a department whose names up to the root's spell the rest |
| `MappedSnapshot.SnapshotIsSpelled` | sso-server/internal/service/directory_sync_service.go:1499-1572 | the same from the raw snapshot, whose segments are trimmed |
| `MappedRuns.RunKeepsForest` | sso-server/internal/service/directory_sync_service.go:1499-1572 | a mapped run keeps the table a forest |
| `MappedRuns.SecondRunCreatesNothing` | sso-server/internal/service/directory_sync_service.go:1499-1572 | a second run creates nothing and resolves every path as before |
| `MappedRuns.LongestPrefixKey` | sso-server/internal/service/directory_sync_service.go:1851-1868 | the scan finds the longest covering key whatever the map iteration order |
| `MappedRuns.ResolveUserDepartment` | sso-server/internal/service/directory_sync_service.go:1833-1886 | a user gets the department of the longest resolved prefix of the first path that has one |
| `MappedRuns.ResolvedPathWins` | sso-server/internal/service/directory_sync_service.go:1851-1868 | a resolved path resolves to itself |
| `MappedRuns.MainPathFirst` | sso-server/internal/service/directory_sync_service.go:1833-1850 | the main path comes first, then the other paths that are not blank and do not repeat it |
| `MappedRuns.MainPathDecides` | sso-server/internal/service/directory_sync_service.go:1833-1886 | below a resolved path the main path decides, whatever the other paths say |
| `MappedRuns.NothingResolved` | sso-server/internal/service/directory_sync_service.go:1833-1886 | with nothing resolved mapping mode leaves the user out and automatic mode uses the mount |
| `MappedPlaces.SharedIffSamePlace` | sso-server/internal/service/directory_sync_service.go:1499-1572 | a layout resolves the mapped roots and the paths between them and collected ones; a path keeps the department in place for it or gets a new one; two paths share a department exactly when the table had them at the same place |
| `MappedPlaces.CountsByPlace` | sso-server/internal/service/directory_sync_service.go:1542-1570 | a layout creates one department for every place with names missing; a dry one counts one for every path at such a place, so the counts agree exactly when no two such paths are at one place |
| `MappedDryRun.DryRunCanAnnounceMore` | sso-server/internal/service/directory_sync_service.go:1542-1570 | two roots mapped to one department share the child below them, which a dry layout counts twice |
| `MappedPlaces.UnchangedIffInPlace` | sso-server/internal/service/directory_sync_service.go:1542-1570 | a layout changes no row exactly when every path is in place, which is exactly when a dry one announces nothing |
| `MappedTargets.BuildMappingResolver` | sso-server/internal/service/directory_sync_service.go:1446-1494 | reading the mappings fails exactly when one names a department that is gone; otherwise every mapped path gets its target, a later mapping of a path winning, and existing targets exist |
| `MappedTargets.TargetsSay` | sso-server/internal/service/directory_sync_service.go:1446-1494 | a path has a target exactly when some mapping gives it one, and then what the last such mapping asks for |
| `MappedService.MappedDirectory.EnsureTargetDept` | sso-server/internal/service/directory_sync_service.go:1892-1969 | an existing target, a live "newdept:" binding, or a new department under the live parent; a dry run only drops a stale binding |
| `MappedTargets.StaleTargetRepaired` | sso-server/internal/service/directory_sync_service.go:1931-1969 | a target whose department was deleted is created again under a live parent and its binding goes to it |
| `MappedTargets.DryTargetSays` | sso-server/internal/service/directory_sync_service.go:1931-1955 | a dry run gives a target without a live binding an unused id, drops its stale binding and creates nothing |
| `MappedTargets.TargetKeyInjective` | sso-server/internal/service/directory_sync_service.go:1928-1931 | keys of different parents or names differ |
| `MappedTargets.OwnDepartments` | sso-server/internal/service/directory_sync_service.go:1892-1969 | where no target was bound before, each target to be created gets a new department of its name under its live parent, shared by two targets exactly when name and live parent agree |
| `MappedService.MappedDirectory.EnsureTargets` | sso-server/internal/service/directory_sync_service.go:1504-1515 | in whatever order the map is iterated, every target gets its department, its own by name and parent where none was bound before; targets that were all found are found again, dry or not, and nothing is written |
| `MappedTargets.AllFoundAgain` | sso-server/internal/service/directory_sync_service.go:1892-1969 | once every target has been found, resolving them again in any order, dry or not, changes nothing, so both layouts of a sync start from the same roots |
| `MappedTargets.TargetsKeepIff` | sso-server/internal/service/directory_sync_service.go:1892-1969 | resolving the targets changes nothing exactly when it adds no row, exactly when all were found |
| `MappedTargets.TargetsKeepForest` | sso-server/internal/service/directory_sync_service.go:1892-1969 | the table stays a forest, deleted parents notwithstanding |
| `MappedService.MappedDirectory.EnsureMappedDepartmentSubtrees` | sso-server/internal/service/directory_sync_service.go:1516-1572 | given the root departments, the loops compute the specified run, count the rows created, bind every resolved path and leave all other bindings as they were; a dry run resolves the same paths and writes neither rows nor bindings |
| `MappedService.MarkedWithAt` | sso-server/internal/service/directory_sync_service.go:1516-1518 | the layout's bindings: every resolved path is bound to its department, and whatever stood under any other key, stale mapped keys included, stays |
| `MappedService.MappedDirectory.MatchDepartments` | sso-server/internal/service/directory_sync_service.go:1165-1181 | the loop over remote departments counts the matched ones and, unless dry, binds their paths |
| `MappedService.WithMatchesAt` | sso-server/internal/service/directory_sync_service.go:1165-1181 | the loop binds the path of every matched remote department to where it resolved, whatever their order, and touches no other binding |
| `MappedSnapshot.MatchedIffMapped` | sso-server/internal/service/directory_sync_service.go:1165-1181 | for a snapshot with trimmed segments, a remote department with a path of its own is matched exactly when that path is a mapped root or below one |
| `MappedService.MatchedSays` | sso-server/internal/service/directory_sync_service.go:1165-1181 | the matching loop's test and binding, in those terms |
| `MappedService.CountMatchedIs` | sso-server/internal/service/directory_sync_service.go:1165-1181 | every matched remote department counts once, however often its path occurs |
| `MappedService.MappedDirectory.Sync` | sso-server/internal/service/directory_sync_service.go:499-547 | targets and subtrees laid out twice and the matching loop: rows and bindings afterwards, dry and real; a dry sync changes nothing exactly when targets were found and tables settled, a real one exactly when matched departments were bound as well; either leaves them so, and a forest stays one |
| `MappedService.SettledIff` | sso-server/internal/service/directory_sync_service.go:593-625 | a layout changes neither rows nor bindings exactly when every path of it is in place and bound to its department |
| `MappedDryRun.SecondLayoutIsIdle` | sso-server/internal/service/directory_sync_service.go:509-530 | laid out again, dry or not, every path resolves as before and nothing is created or announced |
| `MappedService.DrySyncWrites` | sso-server/internal/service/directory_sync_service.go:593-625 | with one mapped root and no bindings, any new path below the root makes a dry sync write a department and two bindings |
| `MappedService.DrySyncCanWrite` | sso-server/internal/service/directory_sync_service.go:593-625 | the concrete path "A/x" below the mapped root "A" |
| `MappingRoots.FindMappingRoots` | sso-server/internal/service/directory_sync_service.go:983-1012 | returns exactly the minimal included paths, each once, sorted: an antichain that covers every included path |
| `MappingRoots.RootsOrderIndependent` | sso-server/internal/service/directory_sync_service.go:983-1012 | reordering the mappings does not change the result |
| `MappingRoots.FilterDirectorySnapshot` | sso-server/internal/service/directory_sync_service.go:1393-1440 | the loops keep exactly the departments and users in scope, in order |
| `MappingRoots.OneKept` | sso-server/internal/service/directory_sync_service.go:1393-1440 | one department or user is kept exactly if its main path is at or below a root, and a kept user loses exactly the other paths that are not; no usable root keeps all |
| `MappingRoots.FilteredInOrder` | sso-server/internal/service/directory_sync_service.go:1393-1440 | departments and users are filtered one by one, in order |
| `MappingRoots.IncludedAre` | sso-server/internal/service/directory_sync_service.go:980-1003 | the roots come from the included mappings, trimmed, without blank ones |
| `MappingRoots.FilteringTwice` | sso-server/internal/service/directory_sync_service.go:1393-1440 | filtering a filtered snapshot changes nothing |
| `MappingRoots.PrunedScopeIff` | sso-server/internal/service/directory_sync_service.go:983-1012 | pruned and full roots have the same scope exactly when no slash-only root hides another |
| `MappingRoots.PrunedRootsFilterAlike` | sso-server/internal/service/directory_sync_service.go:1393-1440 | then both keep the same departments and users |
| `MappingRoots.PrunedFilterIff` | sso-server/internal/service/directory_sync_service.go:1393-1440 | over all snapshots: both filter alike exactly when no slash-only root hides another |
| `MappingRoots.NormalisedRootsFilterAlike` | sso-server/internal/service/directory_sync_service.go:1393-1440 | with roots that are trimmed and more than slashes, both keep the same departments and users |
| `MappingRoots.SlashRootsHideTheRest` | sso-server/internal/service/directory_sync_service.go:990-1003 | the family of roots on which pruning turns the filter off |
| `MappingRoots.SlashHidesB` | sso-server/internal/service/directory_sync_service.go:990-1003 | a concrete list of roots and a department only the pruned list keeps |
| `UniqueNames.Pigeonhole` | sso-server/internal/service/directory_sync_service.go:2327-2337 | distinct taken values need as many users |
| `UniqueNames.FirstFreeNumbered` | sso-server/internal/service/directory_sync_service.go:2339-2349 | the loop stops at the first free name within one more probe than there are users |
| `UniqueNames.FirstFreeChained` | sso-server/internal/service/directory_sync_service.go:2354-2363 | the same for names that grow by appending to the previous candidate |
| `UniqueNames.FirstFreeEmail` | sso-server/internal/service/directory_sync_service.go:2764-2795 | the same for numbered addresses |
| `UniqueNames.TakenIs` | sso-server/internal/service/directory_sync_service.go:2327-2337 | a value is taken when it is not blank and another user's column is exactly it |
| `UniqueNames.ItoaSays` | sso-server/internal/service/directory_sync_service.go:2339-2349 | the digits of a number say it, without a leading zero |
| `UniqueNames.CandidatesSay` | sso-server/internal/service/directory_sync_service.go:2339-2363 | the second and third candidates, and where the number goes in an address |
| `UserImport.ResolveAssignEmail` | sso-server/internal/service/directory_sync_service.go:2764-2795 | with a strategy and a generated address its first free numbered form, else the remote address if free; never a taken one |
| `UserImport.SaveKeepsUnique` | sso-server/internal/service/directory_sync_service.go:1657-1765 | saving a row whose columns are kept or free keeps user names, emails and phones distinct |
| `UserImport.UserTables.ApplyRemoteUser` | sso-server/internal/service/directory_sync_service.go:1597-1765 | one remote user: which account is found, and every column of the row and the binding written, as `Applied` and, value by value, as `ComesTo` say; the unique columns stay unique |
| `UserImport.AppliedComesTo` | sso-server/internal/service/directory_sync_service.go:1597-1765 | column by column: a departed user's account is inactive, locked for a missing source and resigned, and otherwise as it was; a created or updated one takes over name, position, department and activity |
| `UserImport.FoundIsAccount` | sso-server/internal/service/directory_sync_service.go:1616-1636 | the account is the live bound one, else the first by domain account, then by email, then by user name |
| `UserImport.SanitizedIs` | sso-server/internal/service/directory_sync_service.go:2622-2629 | a sanitized name is the allowed characters of the lower-case value but for marks at the ends |
| `UserImport.KeepAllowedNext` | sso-server/internal/service/directory_sync_service.go:2622-2629 | lower-case letters, digits, dots, dashes and underscores are kept, anything else is dropped |
| `UserImport.BaseIs` | sso-server/internal/service/directory_sync_service.go:2585-2608 | which of source name and nickname a generated name is made of |
| `UserImport.UpdatedNameSays` | sso-server/internal/service/directory_sync_service.go:2610-2620 | a chosen name is kept in lower case, an administrator's as it is, any other is replaced by a generated one |
| `UserImport.NewNameSays` | sso-server/internal/service/directory_sync_service.go:2339-2363 | a new account's name, with and without an edited one |
| `UserImport.NewEmailSays` | sso-server/internal/service/directory_sync_service.go:2764-2795 | a new account's address, by strategy or from the remote user if it is free |
| `UserImport.UserTables.ApplyRemoteUsers` | sso-server/internal/service/directory_sync_service.go:1138-1290 | a whole snapshot keeps the columns unique, and a second pass creates nobody |
| `ImportBuffer.Buffer.EditBufferField` | sso-server/internal/service/directory_sync_service.go:2384-2425 | which row and field an edit writes, and every reason it writes nothing |
| `ImportBuffer.Buffer.Pull` | sso-server/internal/service/directory_sync_service.go:593-700 | a pull rebuilds its provider's rows around the recorded edits and keeps the others |
| `ImportBuffer.PullMakesUnique` | sso-server/internal/service/directory_sync_service.go:593-700 | a pull leaves one row per external id whatever was there |
| `ImportBuffer.ReachableIsUnique` | sso-server/internal/service/directory_sync_service.go:593-700 | over any edits and pulls a provider has at most one row per external id |
| `ImportBuffer.PullKeepsOthers` | sso-server/internal/service/directory_sync_service.go:593-700 | a pull leaves other providers' rows alone |
| `ImportBuffer.EditKeepsOthers` | sso-server/internal/service/directory_sync_service.go:2384-2425 | an edit leaves other providers' rows alone |
| `ImportBuffer.PullShows` | sso-server/internal/service/directory_sync_service.go:593-700 | a pull leaves exactly the users first mentioned in scope, each showing what the snapshot says but for the edited columns, which show the last edit on record |
| `ImportBuffer.EditSays` | sso-server/internal/service/directory_sync_service.go:2384-2425 | an edit writes the shown column and its record in the first row of the id, and nothing else |
| `ImportBuffer.ValidEmailSays` | sso-server/internal/service/directory_sync_service.go:2557-2561 | an address has an at sign inside and a dot after the last one |
| `ImportBuffer.EditSurvivesIff` | sso-server/internal/service/directory_sync_service.go:593-700 | the latest edit is shown later exactly when every pull since kept the external id in scope |
| `ImportBuffer.EditInHistorySurvivesIff` | sso-server/internal/service/directory_sync_service.go:2384-2425 | anywhere in a history from an empty buffer: an edit shows in the end exactly when every later pull kept the id in scope, else no trace is left |
| `TtlStore.MemoryStore.Delete` | sso-server/internal/oauth/store.go:110-117 | the loop removes exactly the given keys |
| `TtlStore.MemoryStore.CollectGarbage` | sso-server/internal/oauth/store.go:72-84 | a tick removes exactly the expired entries, in whatever order the map is iterated |
| `TtlStore.SweepsTransparentIff` | sso-server/internal/oauth/store.go:72-134 | sweeps inserted anywhere change no answer exactly when no Incr hits an expired entry that still counts |
| `TtlStore.SweepCanShow` | sso-server/internal/oauth/store.go:119-134 | a concrete Incr whose answer depends on whether the collector came by |
| `TtlStore.NoIncrNoStale` | sso-server/internal/oauth/store.go:86-117 | Set, Get and Del never show a sweep |
| `TtlStore.SpacedIncrsCount` | sso-server/internal/oauth/store.go:119-134 | Incr calls each within ttl of the last answer 1, 2, ..., n despite sweeps and other keys |
| `TtlStore.ValueIsSeen` | sso-server/internal/oauth/store.go:72-134 | a value set, or a number an Incr leaves, is found exactly until its lifetime has passed, whatever is done to other keys and however often the collector comes by |
| `TtlStore.DeletedIsUnseen` | sso-server/internal/oauth/store.go:110-117 | a deleted key is not found until it is written again |
| `OneTime.NormalizeRedirectURI` | sso-server/internal/handler/oauth_handler.go:60-65 | the loop strips exactly the trailing question marks and slashes |
| `OneTime.CredentialStore.Redeem` | sso-server/internal/handler/oauth_handler.go:245-273 | a redemption alone: when it is granted and when it uses the credential up |
| `OneTime.RedeemedExactly` | sso-server/internal/handler/oauth_handler.go:245-273 | for every kind of credential, what a redemption asks for to be granted and to use the credential up |
| `OneTime.TimeAndSweepSay` | sso-server/internal/oauth/store.go:72-84 | time only passes, and a sweep drops exactly the entries past their deadline |
| `OneTime.UndisturbedIsRedeem` | sso-server/internal/handler/oauth_handler.go:250-273 | the three steps of one request back to back are a whole redemption |
| `OneTime.SuccessMeansGotBeforeAnyDel` | sso-server/internal/handler/oauth_handler.go:250-268 | under any interleaving a success read the store before any Del on the key, and was granted what was issued |
| `OneTime.CodeGoesToItsClient` | sso-server/internal/oauth/authcode.go:48-61 | tokens go only to the client, redirect URI and PKCE challenge of the code |
| `OneTime.TicketGoesToItsService` | sso-server/internal/handler/cas_handler.go:79-103 | over all runs, a redeemed ticket was issued for the presenting service, up to slashes at the end, and neither name is empty |
| `OneTime.ChallengeNeedsAim` | sso-server/internal/captcha/captcha.go:185-206 | over all runs, a solved challenge was answered within 6 of the place and in at least 250 milliseconds |
| `OneTime.DoubleRedemptionOverlaps` | sso-server/internal/handler/cas_handler.go:79-91 | two successes on one key each read before the other's Del |
| `OneTime.BothSucceedIffOverlapped` | sso-server/internal/handler/oauth_handler.go:250-268 | over all runs, two answered requests on one key that pass every check both succeed exactly when each read before the other's Del |
| `OneTime.NoRedemptionAfterDel` | sso-server/internal/captcha/captcha.go:185-221 | no request that reads after a finished Del redeems the key |
| `OneTime.RaceGrantsTwice` | sso-server/internal/handler/wecom_handler.go:75-88 | any redeemable credential can be redeemed twice by overlapping requests |
| `RefreshRotation.TokenService.HandleRefreshTokenGrant` | sso-server/internal/handler/oauth_handler.go:317-366 | the grant's steps compute the specified state and answer, refusals included |
| `RefreshRotation.TokenService.HandleRefresh` | sso-server/internal/handler/auth_handler.go:424-473 | the console's refresh, with its own order of checks |
| `RefreshRotation.OneTokenPerChain` | sso-server/internal/oauth/token.go:83-115 | in every run a chain has at most one stored token, with the user, client and scope it began with |
| `RefreshRotation.RenewedForAnotherIff` | sso-server/internal/handler/auth_handler.go:424-473 | in any run a renewal hands out its chain's grant; it goes to another client than the chain's exactly when the console refreshes a live token of another client |
| `RefreshRotation.ConsoleRenewsForeignToken` | sso-server/internal/handler/auth_handler.go:432-461 | a run in which the console renews an application's token |
| `RefreshRotation.AcceptedOnce` | sso-server/internal/handler/oauth_handler.go:317-366 | an accepted token is never accepted again, and its successor is of the same chain and grant |
| `RefreshRotation.RevokeEndsChain` | sso-server/internal/handler/oauth_handler.go:547-560 | after a revocation no token of the chain is ever accepted |
| `RefreshRotation.TokenLivesExactly` | sso-server/internal/oauth/token.go:83-98 | over all runs, a token neither revoked nor used since is accepted exactly until its client's lifetime, or else the default, has passed since the issue; without a positive lifetime it never expires |
| `RefreshRotation.TokenEndpointSays` | sso-server/internal/handler/oauth_handler.go:317-366 | when the token endpoint keeps, uses up and replaces a token |
| `RefreshRotation.ConsoleSays` | sso-server/internal/handler/auth_handler.go:424-473 | when the console does |
| `RefreshRotation.OtherHandlersSay` | sso-server/internal/oauth/token.go:83-115 | what grant, login, revocation and sweep store and remove |
| `RefreshRaces.RunKeepsAgreement` | sso-server/internal/handler/oauth_handler.go:317-366 | with interleaved steps every token still carries its chain's grant |
| `RefreshRaces.UndisturbedIsAtomic` | sso-server/internal/handler/oauth_handler.go:317-366 | the steps of one refresh back to back are the atomic handler |
| `RefreshRaces.OtherStepsSay` | sso-server/internal/handler/oauth_handler.go:547-560 | a grant starts a chain of its own, a revocation or an expiry removes one token and nothing else |
| `RefreshRaces.SerialRunsKeepOne` | sso-server/internal/handler/oauth_handler.go:317-366 | if refreshes of one chain do not overlap a chain never has two tokens, whatever else interleaves |
| `RefreshRaces.SafeIffPendingOwns` | sso-server/internal/handler/oauth_handler.go:317-366 | a state has no continuation of non-overlapping refreshes to two tokens of a chain exactly when no chain stores two and each refresh under way has its chain to itself |
| `RefreshRaces.OverlapForksChain` | sso-server/internal/handler/oauth_handler.go:317-366 | overlapping refreshes leave two tokens in the chain |
| `RefreshRaces.RefreshOutlivesRevoke` | sso-server/internal/handler/oauth_handler.go:547-560 | a refresh under way saves a successor of a revoked token |
| `RefreshRaces.IdleChainStaysDead` | sso-server/internal/handler/oauth_handler.go:547-560 | with no refresh under way a chain without a token stays without one |
| `RefreshRaces.EndedIffIdle` | sso-server/internal/handler/oauth_handler.go:547-560 | no run stores a token of a chain exactly when it has neither a stored token nor a refresh under way |
| `RefreshRaces.RevokeEndsIff` | sso-server/internal/handler/oauth_handler.go:547-560 | revoking a chain's token ends the chain exactly when no refresh of it is under way |
| `Sessions.Manager.Create` | sso-server/internal/session/session.go:50-75 | the session is stored, indexed and alive until its deadline |
| `Sessions.Manager.Get` | sso-server/internal/session/session.go:77-90 | a session is found exactly while it is stored and alive |
| `Sessions.Manager.Delete` | sso-server/internal/session/session.go:92-97 | the session leaves store and index |
| `Sessions.Manager.ListAll` | sso-server/internal/session/session.go:100-128 | exactly the created, undeleted sessions unexpired when the store is asked about each, each once, newest first; afterwards the index is that set |
| `Sessions.Manager.Count` | sso-server/internal/session/session.go:131-133 | the number of those sessions |
| `Mailbox.SerialRunsSettle` | sso-server/internal/monitor/scheduler.go:45-69 | with one caller at a time no call blocks, and between calls the newest interval is in slot, hand or force |
| `Mailbox.SerialFromStart` | sso-server/internal/monitor/scheduler.go:24-41 | the same from a new scheduler |
| `Mailbox.LoopCatchesUp` | sso-server/internal/monitor/scheduler.go:82-101 | from a settled state, however select chooses, the loop takes at most four steps other than ticks and then ticks at the newest interval |
| `Mailbox.CallAlone` | sso-server/internal/monitor/scheduler.go:45-69 | a call on its own stores a new positive interval, leaves it alone in the slot and returns; any other call changes nothing |
| `Mailbox.BlockedWaits` | sso-server/internal/monitor/scheduler.go:58-67 | a call past its drain waits for as long as the slot is full |
| `Mailbox.LoopAlone` | sso-server/internal/monitor/scheduler.go:24-101 | the loop starts with the stored interval and takes over what the slot holds |
| `Mailbox.SettledIffLastSenderIsNewest` | sso-server/internal/monitor/scheduler.go:45-69 | with any number of callers the newest interval is honoured exactly when the last to send is the last to have stored |
| `Mailbox.CanLoseIff` | sso-server/internal/monitor/scheduler.go:45-69 | in every state, the calls under way and a live loop can end with the newest interval lost exactly when it is lost already with nobody calling, or a call carries another interval than the stored one |
| `Mailbox.TwoCallersCanLose` | sso-server/internal/monitor/scheduler.go:45-69 | two callers can leave the older interval in force and the newer one unobtainable |
| `Mailbox.TwoCallersCanBlock` | sso-server/internal/monitor/scheduler.go:56-67 | two callers can leave one blocked on a full slot |
| `Mailbox.CanBlockIff` | sso-server/internal/monitor/scheduler.go:45-69 | in every state, the calls under way can block exactly when one is blocked or two or more are under way other than two fresh ones before an empty slot |
| `SiteUrlCache.ConfigRepository.SiteURL` | sso-server/internal/repository/misc_repo.go:135-153 | one call at a time, the answer is the database row |
| `SiteUrlCache.ConfigRepository.Set` | sso-server/internal/repository/misc_repo.go:176-187 | the row changes if the write is accepted, and the cache is unloaded either way |
| `SiteUrlCache.ReadFromCache` | sso-server/internal/repository/misc_repo.go:135-142 | a read's steps back to back on a loaded cache answer from it |
| `SiteUrlCache.ReadFromRow` | sso-server/internal/repository/misc_repo.go:135-153 | on an unloaded one they answer the row and load the cache with it |
| `SiteUrlCache.SetUnloads` | sso-server/internal/repository/misc_repo.go:155-187 | a setter's steps back to back change the row if the write is accepted, and unload the cache |
| `SiteUrlCache.LoadedIsCurrent` | sso-server/internal/repository/misc_repo.go:135-159 | under any interleaving a loaded cache is the row unless a setter is between write and invalidation |
| `SiteUrlCache.ReadsAreFresh` | sso-server/internal/repository/misc_repo.go:135-187 | a read begun after a version was set or read answers with that version or a newer one |
| `SiteUrlCache.ReadAfterSetIsFresh` | sso-server/internal/repository/misc_repo.go:135-187 | a read that begins after a Set returned answers the version it wrote or a newer one, under every interleaving |
| `SiteUrlCache.ReadsDoNotGoBack` | sso-server/internal/repository/misc_repo.go:135-153 | consecutive reads never see an older version |
| `SiteUrlCache.StaleUntilInvalidated` | sso-server/internal/repository/misc_repo.go:176-187 | between write and invalidation the old value is still answered |
| `DailyRollup.MonitorRepository.UpsertDaily` | sso-server/internal/repository/monitor_repo.go:93-125 | one probe updates its own row, and no other |
| `DailyRollup.MonitorRepository.UpsertAll` | sso-server/internal/repository/monitor_repo.go:93-125 | any list of probes leaves each row the roll-up of its own probes |
| `DailyRollup.CountsAndMaximum` | sso-server/internal/repository/monitor_repo.go:93-125 | total and success count are exact, the maximum is attained and bounds every probe |
| `DailyRollup.WorstIsFirstWorst` | sso-server/internal/repository/monitor_repo.go:127-136 | the worst status is that of the first probe of the highest rank |
| `DailyRollup.WorstSays` | sso-server/internal/repository/monitor_repo.go:93-136 | one outage makes the day down, else one degraded probe degraded, else one under maintenance that |
| `DailyRollup.SuccessesAre` | sso-server/internal/repository/monitor_repo.go:93-125 | the successes are the probes that came out up or degraded |
| `DailyRollup.MeanMoves` | sso-server/internal/repository/monitor_repo.go:113-115 | each probe moves the mean to the quotient, cut towards zero, of the weighted sum |
| `DailyRollup.MeanDrift` | sso-server/internal/repository/monitor_repo.go:113-115 | 0 <= sum - n*a <= n(n-1)/2, and a lies between the smallest and the largest time |
| `DailyRollup.DriftIsReached` | sso-server/internal/repository/monitor_repo.go:113-115 | the bound is reached for every n |
| `Lockout.AuthHandler.FindLoginUser` | sso-server/internal/service/user_service.go:324-344 | user name before email, and a lock that has run out is lifted |
| `Lockout.AuthHandler.HandleLogin` | sso-server/internal/handler/auth_handler.go:257-412 | the handler's steps compute the specified counters, locks and answer |
| `Lockout.WhichAnswer` | sso-server/internal/handler/auth_handler.go:257-412 | exactly when an attempt is answered by ban, lock, captcha, disabled account, login, denial or failure |
| `Lockout.FailureSays` | sso-server/internal/handler/auth_handler.go:326-362 | the count, the lock and the attempts left after a failure |
| `Lockout.OtherAnswersSay` | sso-server/internal/handler/auth_handler.go:398-401 | no other answer touches a counter but a completed login, which clears the name's |
| `Lockout.LocksSay` | sso-server/internal/service/user_service.go:324-344 | short of a lock by failures an attempt only lifts a lock that has run out |
| `Lockout.AdminAndSweepSay` | sso-server/internal/service/user_service.go:424-437 | an administrator's lock has no end, and a sweep drops exactly the counts past their time |
| `Lockout.BoundedIffNoStrays` | sso-server/internal/handler/auth_handler.go:326-362 | in every run unlocked accounts stay below the threshold exactly when no submitted stray name shares a counter |
| `Lockout.FoldedNamesAreBounded` | sso-server/internal/handler/auth_handler.go:807-809 | names that are their own fold, such as trimmed lower-case ones, keep the bound in every run |
| `Lockout.OtherSpellingOverflows` | sso-server/internal/handler/auth_handler.go:807-809 | a concrete run that fills an unlocked account's counter under another spelling |
| `Lockout.OtherSpellingIsStray` | sso-server/internal/handler/auth_handler.go:807-809 | another spelling of an account's name breaks the bound |
| `Lockout.LocksAtThreshold` | sso-server/internal/handler/auth_handler.go:326-345 | the failure that reaches the threshold locks and zeroes the counter, no earlier one does |
| `Lockout.LockLastsExactly` | sso-server/internal/handler/auth_handler.go:270-284 | after a lock by failures an attempt reaches Authenticate exactly when d > 0 and it comes after t + d |
| `Lockout.LoginRestoresBudget` | sso-server/internal/handler/auth_handler.go:398-401 | right after a completed login exactly threshold wrong passwords lock the account, and no fewer |
| `Base64.Base64Encode` | sso-server/pkg/mailer/mailer.go:156-180 | the shifting loops compute the group-wise encoding with the standard's letters |
| `Base64.RoundTrip` | sso-server/pkg/mailer/mailer.go:156-180 | a decoder after section 4 of RFC 4648 undoes the encoder for every byte string |
| `Base64.DecodedIffEncoded` | sso-server/pkg/mailer/mailer.go:156-180 | a string decodes to d exactly when it is the encoding of d |
| `Base64.EncodedShape` | sso-server/pkg/mailer/mailer.go:156-180 | length 4*ceil(n/3), alphabet characters, then none to two '=' |
| `Base64.AlphabetIsTable` | sso-server/pkg/mailer/mailer.go:157 | the encoder's table is the alphabet the decoder knows |
| `Base64.EncodeSubject` | sso-server/pkg/mailer/mailer.go:147-154 | ASCII subjects pass unchanged, others become an encoded word |

## Left out

- MappedService.MappedDirectory.EnsureTargets: has no cache of targets created in the same call, because a real run finds them by their binding and a dry one, which follows a real one, meets none.
- MappedService.MappedDirectory.EnsureMappedDepartmentSubtrees: starts from the root departments, which `EnsureTargets` resolves in a loop of its own before it.
- MappedService.MappedDirectory.Sync: starts where `BuildMappingResolver` has succeeded, with existing targets existing; where that fails the sync fails before it writes a department or binding. `matched` is the matching loop's share of that counter.
- MappedTargets.BuildMappingResolver: department ids of a mapping are given parsed; an id that is no UUID fails the sync like one that is gone.
- UserImport.UserTables.ApplyRemoteUser: group membership, the password hash and the summary details of a user are not modelled.
- UserImport.UserTables.ApplyRemoteUsers: has no whitelist of users, no user skipped for want of a mapped department, and does not disable users missing from the snapshot.
- ImportBuffer.Buffer.Pull: has the columns that identify a user or can be edited; the department, groups, status and raw columns are recomputed from the snapshot by every pull. The layout of departments that a pull does first is `DirectorySyncService.Directory.EnsureAutomaticDepartments`.
- Roles, preview trees, sync logs and summary texts of a directory sync.
- `generateEmail` and pinyin or camel-case splitting: the generated address is an input, and `strings.ToLower` a parameter that leaves lower-case letters, digits and marks alone.
- The all-digit branch of `normalizeUsernameBase`: an all-digit source already takes the Latin branch before it.
- The rename action of `ResolveBufferConflict`, `DepartmentHandler.Update`, `buildPreviewTree`, `fetchWeComDepartments` and `sleepUntilNext2AM`: no claim is made about them.
- Departments and bindings of other providers during a sync: the binding map is the current provider's, and a fresh row id stands for a random UUID.
- Database and store errors, and requests cut off between steps; a failed site-URL write is the one error modelled, because invalidation is deferred past it.
- JSON encoding: a stored value is a number or other bytes, and `Incr` starts from 0 on bytes that are no number.
- 64-bit wrap-around of counters, durations and `AvgResponseMs * TotalProbes`: integers are unbounded.
- Cryptography: SHA-256 is a parameter, tokens, codes, tickets and session ids are fresh, access and id tokens are not modelled.
- Lockout.AuthHandler.HandleLogin: IP bans, the captcha gate and the login rules are outcomes given from outside, LDAP is off, and one request sees one instant.
- OneTime.CredentialStore.Redeem: whether the user or application behind a redeemed credential still exists is given from outside.
- HTTP, SMTP, LDAP, the WeCom API, images, the browser front end, CRUD handlers, dashboards, seeding and migrations.
