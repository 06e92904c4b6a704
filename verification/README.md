# Content Node bookkeeping, verified

A Dafny model of the bookkeeping of the Audius Content Node (`creator-node`), of the canonical text that
it and the discovery provider sign, and of the IP redaction in `comms`. Each file is one module.

| file | what it models |
|---|---|
| `ClockLog.dfy`, `ClockRepair.dfy` | the per-user clock log: interleaved write transactions under the row lock, and the repair of a clock, alone and between them |
| `UserDeletion.dfy` | deletion of a user's rows under the foreign keys of the migrations |
| `FilesHash.dfy` | the hash over a user's files, by clock range and grouped over many users |
| `SweepMigration.dfy`, `StoragePaths.dfy` | the orphan sweep interleaved with the legacy-path migration, and the paths both compute |
| `MigrationContent.dfy` | what that interleaving does to the content of files when copies and fetches break off |
| `DiskManager.dfy`, `CidWindows.dfy` | the loops of the sweep and of the migration as code, each a run of that interleaving, and the CID windows |
| `UserWipe.dfy` | the paginated gather of a user's own files and their chunked deletion from disk |
| `Blacklist.dfy`, `BlacklistExcess.dfy`, `Servable.dfy` | the blacklist in Redis against the tables, what it lacks and what it holds too much, and the caches behind `isServable` |
| `WalletLock.dfy` | the expiring wallet write lock, with Redis calls whose reply is lost |
| `Fetch.dfy` | fetching a file by CID with retries and fallback, and its verification |
| `Json.dfy`, `ApiSigning.dfy` | JSON text and its reader (RFC 8259), sorted keys, signatures in both services |
| `Heartbeat.dfy` | the response streamed behind a heartbeat |
| `RedactIp.dfy` | redaction of dotted quads in place |
| `BullTruncation.dfy` | truncation of job data for display |
| `Wrappers.dfy`, `Collections.dfy` | `Option`, sets of elements, the smaller of two numbers |

Code that changes things step by step is a class whose methods are proved against a step function or a
relation; what holds over whole runs is proved about that function. Hashes, signatures and the order of
the database's collation are function parameters. The network, failures and lost replies are arbitrary
sequences given as parameters, so each result is for all of them.

Every theorem, apart from the witnesses, is for all inputs, runs or reachable states, with one reading of the
assumptions throughout: the database serves one statement at a time, except that an `UPDATE` reads what it joins when
it starts and writes when it gets the row lock (`ClockRepair`); a Redis command is atomic; and a crash of the node is a
transaction that is rolled back or a call that makes no further step.

## What the proofs found

Places where the code does less than it promises. Each names the result that shows it and, where the promise holds
on a part of the inputs, the one that says exactly when.

- Both syncs release the wallet lock in a `finally` block that also runs when `acquire` threw
  (`services/sync/secondarySyncFromPrimary.ts:762`, `services/sync/primarySyncFromSecondary.js:315`), so the
  loser of a contended acquire deletes the winner's lock: `WalletLock.ReleaseAfterFailedAcquire`. A `DEL`
  retried after a lost reply can do the same: `WalletLock.RetriedDeleteHitsNextHolder`. A run keeps every lock to one
  holder, whoever acquires next, exactly when each of its steps is harmless: `WalletLock.OneHolderExactly`.
- A skipped (blacklisted) legacy row can cost another row its file: its fallback unlinks the standard path, or its
  failed copy repoints every row at the legacy path: `SweepMigration.SkippedBesideNeededLoses`,
  `SweepMigration.SkippedWithNeededLoses`. Nothing is ever lost exactly when no skipped row endangers a needed one:
  `SweepMigration.NothingLostExactly`.
- A copy that breaks off on a standard path damages the file of another needed row that has its file there or shares
  the target, as two rows for one legacy file do. The content of every needed file is kept exactly when, at the start,
  no legacy row has such a rival: `MigrationContent.ContentKeptExactly`.
- The migration's CID windows hold small letters and digits only, so under a bytewise collation a CID with a
  capital as its third or fourth character is never migrated: `CidWindows.WindowsReachExactly`.
- The gather stops at the first gap of a page's worth of rows, and never ends with pages of one row: it is complete
  exactly when there is no such gap, `UserWipe.GathersExclusive`; and `UserWipe.OnePerPageNeverMoves`.
- A stream that breaks leaves a partial file at its path, and the next call returns that file unverified:
  `Fetch.FileManager.BrokenStreamIsServed`. A second call returns wrong content exactly when the last request of the
  first that wrote anything left it: `Fetch.FileManager.FetchTwice`, `Fetch.StaysCorrectExactly`.
- `Playlists` rows are never deleted although they refer to the user and to files, so deleting a user fails exactly
  when a playlist is theirs or refers to a file of theirs: `UserDeletion.ReferencesHoldUnlessBlocked`,
  `UserDeletion.DBManager.DeleteAllCNodeUserDataFromDB`.
- Taking one track off the blacklist takes the segments it shares with another blacklisted track out of Redis
  until the next refresh: `Blacklist.RemovalCanUnblockAnother`. A removal is clean exactly when what stays implies
  nothing that was removed: `Blacklist.RemovalIsCleanExactly`.
- An add or a refresh that read what to send before a removal can put it back for good, as refreshes only add:
  `BlacklistExcess.ExcessStays`. Redis never comes to hold more than the table implies exactly when no removal takes
  off what a call under way has still to send: `BlacklistExcess.SettlesWhileClean`.
- The repair of a clock writes the maximum that it read when it started. If it has to wait for a write of that user
  to commit, it puts the clock back below a record: `ClockRepair.WaitingRepairBreaks`. The log stays consistent exactly
  when no repair is overtaken so: `ClockRepair.ConsistentWhileCurrent`.
- A listen signature is cached without its key, so a second key gets the first one's signature:
  `ApiSigning.ListenSigner.SecondKeyGetsTheFirst`. What is returned is the given key's exactly when the cache holds
  nothing fresh or a signature of that key:
  `ApiSigning.ListenSigner.GenerateListenTimestampAndSignature`.
- The expiry of the invalid-track set is ignored, so a track asked for before its upload stays refused:
  `Servable.MissedTrackIsRefused`, `Servable.MarkedBeforeUploadIsRefused`. An answer is wrong exactly when that happens
  or a read throws: `Servable.EveryTrueIsRight`.
- A clock bound of 0 is taken for no bound; a split concatenates exactly when it is not 0 or there are no files:
  `FilesHash.SplitsExactlyAtNonzero`.
- A result object without members ends the heartbeat response in a dangling comma: `Heartbeat.EmptyObjectIsNotJson`.
  The response is JSON exactly when there is a member: `Heartbeat.StreamIsTheResult`.
- The two services order index-like keys, and keys outside the basic plane, differently:
  `ApiSigning.IndexKeysDisagree`, `ApiSigning.AstralKeysDisagree`. They sign one text exactly when the two orders agree
  on the keys of every object: `ApiSigning.ServicesSignSameText`.
- `redactIp` always overwrites the buffer it was given too, as the matches passed to its callback are slices of it:
  `RedactIp.Redact`.
- `_truncateBull` limits strings and keys only in members of objects, although its documentation says it limits
  them everywhere: `BullTruncation.ArrayElementsAreNotCut`. Its result keeps the documented limits exactly when neither
  the root nor an element of an array below containers that survive is a string or an object over its limit:
  `BullTruncation.DocumentedLimitsHoldExactly`.

## Model

| member | source | states |
|---|---|---|
| `ClockLog.Server.CreateNewDataRecord` | creator-node/src/dbManager.js:25-61 | to its own transaction the call has appended the write to the log (next clock, one record, one row); to the committed database and every other transaction nothing has happened; for an unknown user the transaction fails |
| `ClockLog.Server.Increment` | creator-node/src/dbManager.js:31-36 | the transaction sees the user's clock one higher and holds the user's row lock; nothing else changes |
| `ClockLog.Server.InsertClockRecord` | creator-node/src/dbManager.js:38-49 | exactly one record, with the clock the transaction sees and the table to be written, is added to what it sees; nothing is committed and no other transaction changes |
| `ClockLog.Server.InsertDataRow` | creator-node/src/dbManager.js:51-60 | exactly one data row with that same clock is added to what the transaction sees; nothing is committed and no other transaction changes |
| `ClockLog.Server.CommitTransaction` | creator-node/src/routes/tracks.js:295-305 | the database becomes what the transaction saw if no statement of it had failed, and stays as it was otherwise; the transaction is gone and no other changes |
| `ClockLog.Server.RollbackTransaction` | creator-node/src/routes/tracks.js:295-305 | the committed database stays as it was, whatever the transaction had written; the transaction is gone and no other changes |
| `ClockLog.RunKeepsInvariant` | creator-node/src/dbManager.js:25-61 | serializability: under any interleaving of any number of transactions, with commits, failures and rollbacks, the committed database is a serial replay of the committed writes in commit order |
| `ClockLog.OnlyCommitsCount` | creator-node/src/dbManager.js:25-61 | over every run, the rows and records the database has gained are exactly those written by transactions that a commit ended while no statement of theirs had failed, and the history lists just their writes |
| `ClockLog.NothingWithoutCommit` | creator-node/src/routes/tracks.js:295-305 | a run without a commit leaves the database as it was |
| `ClockLog.AppendKeepsConsistent` | creator-node/src/dbManager.js:25-61 | one write on a consistent log adds the next clock with exactly one record and one row in the table it names |
| `ClockLog.ReachableIsConsistent` | creator-node/src/dbManager.js:25-61 | in every reachable state each user's committed records are exactly 1..clock, without gap or repeat, each with exactly one data row, in the table it names |
| `ClockLog.WithoutTheLockAClockRepeats` | creator-node/src/dbManager.js:31-49 | two increments reading the same committed clock would break this: the row lock is needed |
| `ClockLog.RepairSetsMaximum` | creator-node/src/dbManager.js:399-419 | the repair puts the clock of a user with records on their highest recorded one and changes nothing else |
| `ClockLog.RepairedUserNeverReuses` | creator-node/src/dbManager.js:399-419 | after the repair of a user with records, however many writes follow, the next clock is not taken and no record lies above the clock |
| `ClockRepair.ConsistentWhileCurrent` | creator-node/src/dbManager.js:399-419 | with any repairs between the statements of any transactions, the committed log is consistent after every step if and only if no repair writes a maximum after a write of its user has been committed since it read it |
| `ClockRepair.RepairsKeepConsistentExactly` | creator-node/src/dbManager.js:399-419 | the same from every consistent database without open transactions |
| `ClockRepair.WaitingRepairBreaks` | creator-node/src/dbManager.js:399-419 | from every consistent log, for every user with records, a run in which a repair waits for a write of the user and leaves the log inconsistent |
| `ClockRepair.WaitsExactly` | creator-node/src/dbManager.js:399-419 | a repair that has a maximum to write waits exactly while an open transaction has incremented the user's clock |
| `UserDeletion.DBManager.DeleteAllCNodeUserDataFromDB` | creator-node/src/dbManager.js:68-169 | given a wallet, of the user with that wallet, and otherwise of the user with the UUID, it deletes every row outside Playlists and nothing else with references valid after every delete, or restores the database; fails exactly on an outside error or if a playlist is theirs or refers to a file of theirs; if there is no such user, nothing changes and nothing fails |
| `UserDeletion.ReferencesHoldUnlessBlocked` | creator-node/src/dbManager.js:96-147 | after the first k deletes in the code's order, all foreign keys hold if and only if no playlist refers to a file deleted so far or, at the end, to the user |
| `UserDeletion.OrderMatters` | creator-node/src/dbManager.js:104-147 | deleting clock records first, or the user first, keeps the references valid only when there is nothing of the user's that refers to them |
| `UserDeletion.AllDeletedIsWithoutUser` | creator-node/src/dbManager.js:96-147 | the seven deletes together remove the user's rows from every table but Playlists and no other row |
| `FilesHash.RangesConcatenate` | creator-node/src/dbManager.js:296-342 | the multihashes of two clock ranges that meet at a nonzero clock concatenate to those of the whole range, in clock order |
| `FilesHash.SplitsExactlyAtNonzero` | creator-node/src/dbManager.js:316-325 | a split of all of a user's files concatenates to the whole exactly when the split clock is not 0 or there are no files |
| `FilesHash.EmptyIffNoFiles` | creator-node/src/dbManager.js:301-305 | the aggregate is null exactly for a user without files |
| `FilesHash.MultihashesByClock` | creator-node/src/dbManager.js:301-325 | the aggregate runs over just the user's files from the minimum on and below the maximum, where 0 is no bound, each once, in strictly ascending order of clock |
| `FilesHash.Aggregate` | creator-node/src/dbManager.js:301-305 | adding one row after the other in clock order gives the joined multihashes, null without any |
| `FilesHash.FetchFilesHashFromDB` | creator-node/src/dbManager.js:296-342 | the md5 of that text for the user with the given UUID, without one for the user with the given wallet; failure without either, null for an unknown wallet |
| `FilesHash.FetchFilesHashesFromDB` | creator-node/src/dbManager.js:355-391 | for every listed user the grouped query returns what the query for that user alone does, null exactly for users without files, and nothing for others |
| `StoragePaths.ExtractsTheLeftmost` | creator-node/src/diskManager.ts:105-126 | the outer CID is the leftmost Qm with 44 letters or digits behind a slash, and none is found only if there is none; the inner one follows it, at once or after one slash |
| `StoragePaths.TargetIsNotLegacy` | creator-node/src/diskManager.ts:480-493 | wherever the migration copies a file, the new path is below the files directory and no legacy path |
| `StoragePaths.TargetOfLegacyFile` | creator-node/src/utils/fsUtils.ts:186-189 | a legacy file directly below the root moves to the standard path of its CID, below the three characters before its last, and keeps its leaf |
| `StoragePaths.TargetOfLegacyFileInDir` | creator-node/src/utils/fsUtils.ts:260-267 | a legacy file in a directory moves to its directory's standard path, below the three characters before the last of the directory's CID, and keeps its leaf |
| `StoragePaths.IsLegacyExactly` | creator-node/src/dbManager.js:437-452 | a path counts as legacy exactly when it starts with /file, any one character, and storage/, and does not go on with files/ |
| `StoragePaths.ValidCidExactly` | creator-node/src/utils/fsUtils.ts:148-155 | a CID is Qm and 44 more characters, none a zero, a capital I or O or a small L |
| `StoragePaths.StorageLocationExactly` | creator-node/src/fileManager.js:444-480 | a file is stored below the three characters before the last of its own CID, and one with a directory and a name below those of its directory; nowhere if a CID is malformed |
| `SweepMigration.SweptFileIsUnused` | creator-node/src/diskManager.ts:378-396 | a path whose leaf CID is no row's multihash is no needed row's path, nor where the migration would put its file |
| `SweepMigration.LegacyShapesNameTheirFile` | creator-node/src/diskManager.ts:105-126 | both legacy path shapes meet what the safety proof asks of rows |
| `SweepMigration.RunKeepsInvariant` | creator-node/src/diskManager.ts:334-580 | every interleaving of sweeps (find, query, remove) and migration (touch, copy, unlink, fetch, each row update by itself) keeps the file of every needed row and the safety of what is still under way |
| `SweepMigration.EndangeredIsLost` | creator-node/src/diskManager.ts:516-560 | a skipped row that endangers a needed one has a run, with both on the page where both are legacy, in which that row's file is lost |
| `SweepMigration.SkippedBesideNeededLoses` | creator-node/src/diskManager.ts:524-559 | for any CID, a skipped row without a file at the root and a needed row at the standard path: a state in good order with a losing run |
| `SweepMigration.SkippedWithNeededLoses` | creator-node/src/diskManager.ts:556-559 | for any CID, a skipped and a needed row at one legacy path with its file: a state in good order with a losing run |
| `SweepMigration.NothingLostExactly` | creator-node/src/diskManager.ts:461-580 | no run loses the file of a needed row if and only if at the start no skipped row endangers one |
| `MigrationContent.MachineStepIsPossible` | creator-node/src/diskManager.ts:461-580 | every step of the machine of SweepMigration, on a page that lists no row twice, is a step here with the same files, rows and progress |
| `MigrationContent.FailedCopyLeaves` | creator-node/src/diskManager.ts:516-560 | a copy that fails once its target was touched may leave anything there, but the right content only from a right file; before that it leaves the target as it was or emptied |
| `MigrationContent.NoRivalsNoneEndangered` | creator-node/src/diskManager.ts:461-580 | where no legacy row has a rival no skipped row endangers a needed one, so a start that keeps all content also keeps all files |
| `MigrationContent.RunKeepsOrder` | creator-node/src/diskManager.ts:440-580 | over every interleaving in which touches truncate, copies break off or remove their target and fetches leave a part, the needed files keep their content and pending updates lead only to such files |
| `MigrationContent.ContentKeptExactly` | creator-node/src/diskManager.ts:440-580 | no run loses or damages the file of a needed row if and only if at the start no legacy row is to be copied to where another needed row has its file or is to get it |
| `DiskManager.Node.SweepSubdirectory` | creator-node/src/diskManager.ts:346-418 | of the listed files exactly those stay whose leaf is the multihash of a row or that rm cannot remove; no other file goes; a run of the machine |
| `DiskManager.Node.CopyLegacyFile` | creator-node/src/diskManager.ts:476-563 | a record with a target is pushed exactly when it is skipped, copied or fetched; only a fetch changes its row, and only if it is not skipped; the files are those from before, with the target or the fetched file added or the target removed, by how far the attempt gets; a record without a target changes nothing |
| `DiskManager.Node.FetchInstead` | creator-node/src/diskManager.ts:678-722 | the record is pushed exactly when the fetch saved it or it is skipped; only a saved one adds a file, at its storage location, and only if it is not skipped its row comes to point there |
| `DiskManager.Node.CopyLegacyFiles` | creator-node/src/diskManager.ts:461-580 | every pushed path gets its own target; when no copy fails every record is pushed, no row changes and no file goes |
| `DiskManager.Node.UpdateLegacyPathDbRows` | creator-node/src/dbManager.js:515-533 | the rows are those from before with just the updates ahead of the error made, each moving every row from its old path to its new; when none fails no row is left at any of the old paths |
| `DiskManager.Node.MigratePage` | creator-node/src/diskManager.ts:631-638 | when nothing fails, no record of the page is left as it was listed and no file goes |
| `DiskManager.Node.MigrateWindow` | creator-node/src/diskManager.ts:614-644 | the loop ends for every pattern of failures, within twice the legacy rows plus two pages, only on an empty or repeated page; adds no legacy row; leaves none in the window when nothing fails; it is a run of the machine |
| `DiskManager.NodeKeepsFiles` | creator-node/src/diskManager.ts:334-644 | after any sequence of these methods every needed row has its file, if no skipped row endangered one at the start |
| `CidWindows.CallFuncOnAllCidsPaginated` | creator-node/src/diskManager.ts:597-612 | the nested loops call the function on 936 windows, each combination of the two characters once |
| `CidWindows.InWindowExactly` | creator-node/src/diskManager.ts:606-609 | compared byte by byte, a CID lies between a window's bounds if and only if it starts with their four characters |
| `CidWindows.WindowsReachExactly` | creator-node/src/diskManager.ts:597-612 | so the windows are disjoint, and reach exactly the CIDs whose third character is a small letter and whose fourth is one or a digit |
| `UserWipe.GetCNodeUserFilesFromDb` | creator-node/src/dbManager.js:179-246 | returns, of the paths on the next page of the user's rows, those of which every row is the user's, each once |
| `UserWipe.Wiper.GatherCNodeUserDataToDelete` | creator-node/src/diskManager.ts:190-225 | ends for every page size of at least 2, with any number of rows for a path, and queues exactly the reached paths; returns their number |
| `UserWipe.GathersAllExactly` | creator-node/src/diskManager.ts:207-224 | every exclusive path is reached if and only if fewer rows than a page precede the first and fewer than a page less one lie between the first rows of two consecutive ones |
| `UserWipe.GathersExclusive` | creator-node/src/diskManager.ts:207-224 | every path queued has a row of the user and none of anybody else, however many rows it has, and all such paths are queued exactly when there is no such gap |
| `UserWipe.OnePerPageNeverMoves` | creator-node/src/diskManager.ts:211-221 | with pages of one row the page at an exclusive path is always full and is that path again |
| `UserWipe.Wiper.DeleteFileOrDir` | creator-node/src/diskManager.ts:128-147 | succeeds exactly when the path exists, and then removes exactly the subtree at it |
| `UserWipe.Wiper.BatchDeleteFileOrDir` | creator-node/src/diskManager.ts:156-180 | attempts every path once, whatever the order within a chunk; the disk loses exactly the union of the subtrees; counts the successes |
| `UserWipe.Wiper.DeleteAllCNodeUserDataFromDisk` | creator-node/src/diskManager.ts:235-263 | whatever Redis pops, given the queue's size it attempts every queued path once, empties the set, leaves the disk minus exactly the subtrees, and returns the number of successes |
| `UserWipe.Wiper.WipeUser` | creator-node/src/services/sync/secondarySyncFromPrimary.ts:165-224 | the disk loses exactly the subtrees at the gathered paths: a path of another user stays if and only if it lies below no gathered one, every exclusive path goes if there is no wide gap, and nothing goes if the database keeps the user |
| `UserWipe.UnnestedCount` | creator-node/src/diskManager.ts:171-179 | unless one path lies below another, every order of deletion succeeds on just the paths that exist |
| `UserWipe.NestedPathsChangeTheCount` | creator-node/src/diskManager.ts:171-179 | of two nested paths both count when the inner goes first and one when the outer does, while the disk ends the same |
| `Blacklist.GetCIDsToBlacklist` | creator-node/src/blacklistManager.js:278-322 | collects exactly the CIDs of the tracks' segments that are not whitelisted and of their files that are track or copy320 files or not whitelisted |
| `Blacklist.CollectedIsImplied` | creator-node/src/blacklistManager.js:278-322 | a CID is collected if and only if some input track implies it through a segment or a file |
| `Blacklist.CollectingDistributes` | creator-node/src/blacklistManager.js:149-190 | collecting over a union of batches of tracks is the union of collecting over each |
| `Blacklist.BlacklistManager.AddToRedisChunkHelper` | creator-node/src/blacklistManager.js:429-443 | chunked adds put exactly the given members in, for every chunk size; when a chunk's add throws, exactly those of the chunks before it |
| `Blacklist.BlacklistManager.AddAggregateCIDsToRedis` | creator-node/src/blacklistManager.js:149-190 | the batches of 200 tracks add exactly the CIDs of all of them |
| `Blacklist.BlacklistManager.FetchCIDsAndAddToRedis` | creator-node/src/blacklistManager.js:110-143 | Redis gains exactly what the given entries imply |
| `Blacklist.BlacklistManager.FetchCIDsAndRemoveFromRedis` | creator-node/src/blacklistManager.js:196-235 | Redis loses exactly what the given entries imply |
| `Blacklist.BlacklistManager.Add` | creator-node/src/blacklistManager.js:324-342 | the table gains the values and Redis what they imply, by type |
| `Blacklist.BlacklistManager.Remove` | creator-node/src/blacklistManager.js:344-361 | the table loses the values and Redis what they imply, by type |
| `Blacklist.BlacklistManager.Refresh` | creator-node/src/blacklistManager.js:36-58 | after a refresh nothing the table implies is missing from Redis |
| `Blacklist.ImpliedDistributes` | creator-node/src/blacklistManager.js:110-143 | what a union of entries implies is the union of what each implies |
| `Blacklist.RunKeepsInvariant` | creator-node/src/blacklistManager.js:324-361 | over every interleaving of adds, removes and refreshes, table step and Redis commands apart, whatever is missing is on its way or was taken out by a removal since the last finished refresh read the table |
| `Blacklist.MissingWasRemoved` | creator-node/src/blacklistManager.js:324-361 | from any start, what the table implies but Redis lacks was implied by removed values, or an add under way brings it |
| `Blacklist.RefreshLeavesNothingMissing` | creator-node/src/blacklistManager.js:46-58 | a refresh that no removal overlaps leaves nothing missing but what is on its way |
| `Blacklist.RemovalIsCleanExactly` | creator-node/src/blacklistManager.js:196-235 | a removal from a complete blacklist leaves nothing missing if and only if what stays in the table implies nothing that the removed values imply |
| `Blacklist.RemovalCanUnblockAnother` | creator-node/src/blacklistManager.js:196-235 | removing one of two tracks that share a segment takes out a CID the other still implies |
| `BlacklistExcess.CleanIsExact` | creator-node/src/blacklistManager.js:324-361 | a step of any call keeps Redis free of excess, and leaves nothing stale on its way if and only if it is no removal of what a call under way has still to send |
| `BlacklistExcess.SettlesExactly` | creator-node/src/blacklistManager.js:110-235 | however the calls under way go on, Redis ends without excess if and only if it has none now and nothing on its way has left the blacklist |
| `BlacklistExcess.SettlesWhileClean` | creator-node/src/blacklistManager.js:324-361 | along every interleaving, Redis can at no point come to hold for good what the table does not imply if and only if every removal is clean |
| `BlacklistExcess.ExcessStays` | creator-node/src/blacklistManager.js:46-58 | what is there for good stays through all adds and refreshes, until values that imply it are removed |
| `Servable.BlacklistManager.IsServable` | creator-node/src/blacklistManager.js:518-599 | answers as without caches, except false for a track found in the invalid set or when a read it makes throws; keeps the caches right |
| `Servable.EveryTrueIsRight` | creator-node/src/blacklistManager.js:518-599 | over any run with failing reads, evictions, uploads and blacklist changes every true is right, and an answer is wrong exactly when a servable CID's call throws or finds its track marked invalid, which was before its upload |
| `Servable.WhatAnswersMean` | creator-node/src/blacklistManager.js:518-599 | in every run, in terms of the sets and the rows: with a nonzero integer id in the track blacklist the answer is false; otherwise a CID that is not blacklisted is served unless a read throws; a blacklisted one is served only with a positive id outside that blacklist of which the first row lists it, and then it is unless a read throws or the id is marked invalid |
| `Servable.WhatFailuresMean` | creator-node/src/blacklistManager.js:518-599 | which failing read makes the answer false: each of the five exactly when the call gets to it |
| `Servable.DirectAnswerExactly` | creator-node/src/blacklistManager.js:518-599 | the cache-free answer, from the sets and the first row of a track alone |
| `Servable.FixedTablesAnswerDirectly` | creator-node/src/blacklistManager.js:518-599 | without uploads every answer of a call that does not throw equals the cache-free one, whatever is evicted |
| `Servable.MissedTrackIsRefused` | creator-node/src/blacklistManager.js:476-489 | in every run, after a call has missed a track, no later call is allowed a blacklisted CID by that track, whatever is uploaded or evicted |
| `Servable.MarkedBeforeUploadIsRefused` | creator-node/src/blacklistManager.js:476-489 | a run of a call, the upload of its track and the same call again, which is refused although the direct answer is yes |
| `WalletLock.Redis.Acquire` | creator-node/src/redis.js:69-106 | the caller holds the lock exactly when the acquirer is one of the two syncs, the key was free and the first of its 6 tries that reached Redis got its reply; the key then names the caller and its expiry |
| `WalletLock.Redis.TryDel` | creator-node/src/redis.js:116-120 | the wallet's key is gone, whoever set it, unless the request was lost; every other key and process stays; the release is over when the reply arrives or no try is left |
| `WalletLock.AtMostOneHolder` | creator-node/src/redis.js:69-106 | where every belief is right, no two processes believe they hold one lock |
| `WalletLock.HarmlessIsExact` | creator-node/src/redis.js:69-127 | a step keeps all beliefs right if and only if it is harmless: no live holder's key expires, is deleted by another or is cleared |
| `WalletLock.HarmlessRunsKeepBeliefs` | creator-node/src/redis.js:69-127 | along every run beliefs are right after every prefix if and only if every step is harmless |
| `WalletLock.HarmGivesTwoHolders` | creator-node/src/redis.js:69-127 | from right beliefs, after a step that is not harmless any idle process that acquires next is a second holder |
| `WalletLock.OneHolderExactly` | creator-node/src/redis.js:69-127 | along every run no lock has two holders, nor can have with the next acquire, if and only if every step is harmless |
| `WalletLock.OneHolderInDisciplinedRuns` | creator-node/src/redis.js:69-127 | if every holder releases within its expiry, and only a holder releases, at most one process holds a lock in every timed run |
| `WalletLock.DelRemovesOwnLock` | creator-node/src/redis.js:113-127 | in such runs a DEL only ever meets the releasing process's own key |
| `WalletLock.LostSetReplyOnlyFails` | creator-node/src/redis.js:83-105 | after a SET that ran without its reply, in every continuation while the key lives, neither its process nor any other comes to hold the lock |
| `WalletLock.ReleaseAfterFailedAcquire` | creator-node/src/services/sync/primarySyncFromSecondary.js:86-315 | a run in which the release after a failed acquire yields two holders |
| `WalletLock.RetriedDeleteHitsNextHolder` | creator-node/src/redis.js:116-126 | a run in which a retried DEL deletes the next holder's lock |
| `WalletLock.SyncInProgressIsLockHeld` | creator-node/src/redis.js:37-44 | in every run syncIsInProgress is true exactly while a key stands |
| `Fetch.FileManager.FetchFileFromTargetGatewayAndWriteToDisk` | creator-node/src/fileManager.js:331-389 | what one request leaves at the path, for each way it can go |
| `Fetch.FileManager.FetchWithRetries` | creator-node/src/fileManager.js:249-317 | at most numRetries + 1 requests; all but the last to be retried, none after 400, 401 or 403; success exactly when the last delivered the content of the CID |
| `Fetch.FileManager.FetchFileFromNetworkAndWriteToDisk` | creator-node/src/fileManager.js:124-235 | others are asked only when every target failed, the search is enabled and was not done today; at most (targets + others) x (numRetries + 1) requests; failure means that none delivered |
| `Fetch.FileManager.FetchFileFromNetworkAndSaveToFS` | creator-node/src/fileManager.js:409-557 | a returned path holds content of the CID, given that what was there before did; only that path changes; a file that is there is returned without a request |
| `Fetch.StaysCorrectExactly` | creator-node/src/fileManager.js:365-388 | however the requests went, a correct path becomes wrong if and only if the last one that wrote broke off short of the content, or brought wrong content that was not unlinked |
| `Fetch.CleanFailuresStayCorrect` | creator-node/src/fileManager.js:365-388 | with whole streams, working hashes and unlinks that succeed, no failure leaves anything wrong at the path |
| `Fetch.FileManager.FetchTwice` | creator-node/src/fileManager.js:503-556 | of two calls for a file that was not there, the second returns wrong content if and only if the last request of the first that wrote anything left it, and then without a request |
| `Fetch.FileManager.BrokenStreamIsServed` | creator-node/src/fileManager.js:503-510 | one gateway whose stream breaks: the first call fails, and the second returns the partial file |
| `Fetch.FileManager.SaveFileFromBufferToDisk` | creator-node/src/fileManager.js:28-73 | at most numRetries + 1 writes, none after one that settles it; a returned path holds content of the buffer's CID; after a failure the path holds what the last write left |
| `Json.ParsePrintRoundTrip` | creator-node/src/apiSigning.ts:16-17 | the text that JSON.stringify prints reads back as the value, for every value |
| `Json.PrintIsInjective` | creator-node/src/apiSigning.ts:16-17 | two values with the same text are equal |
| `Json.EscapedText` | creator-node/src/apiSigning.ts:16-17 | quotes, backslashes and the 32 control characters are escaped as section 7 of RFC 8259 allows and JSON.stringify chooses; every other character stands for itself |
| `Json.PairIsRead` | creator-node/src/apiSigning.ts:16-17 | the reader takes a character beyond the basic plane from the escapes of its two surrogates, as section 7 of RFC 8259 has it |
| `ApiSigning.PropertyLessIsTotal` | creator-node/src/apiSigning.ts:109-111 | the order a sorted and rebuilt object has, array indices first and then by UTF-16 unit, is a strict total order |
| `ApiSigning.CodePointLessIsTotal` | discovery-provider/src/api_helpers.py:98-104 | so is the order by code point |
| `ApiSigning.PropertyLessExactly` | creator-node/src/apiSigning.ts:109-111 | one key precedes another in that order exactly when it is an array index and the other none or a larger one, or both are none and it has the smaller UTF-16 unit where they first part, or ends there |
| `ApiSigning.CodePointLessExactly` | discovery-provider/src/api_helpers.py:98-104 | the provider's order compares the characters where two keys first part; a proper prefix comes first |
| `ApiSigning.NodeKeysAscend` | creator-node/src/apiSigning.ts:102-112 | the node signs the printed form of a value that differs in key order only, and in every object of which the keys ascend so |
| `ApiSigning.DiscoveryKeysAscend` | discovery-provider/src/api_helpers.py:96-137 | the provider does the same with its order |
| `ApiSigning.PartingKeys` | creator-node/src/apiSigning.ts:109-111 | of two keys p + [c] + x and p + [d] + y with c < d the first comes first, in the node if neither is an array index and d lies in the basic plane |
| `ApiSigning.ExtendedKey` | creator-node/src/apiSigning.ts:109-111 | a key comes before every one that extends it, in the node if neither is an array index |
| `ApiSigning.IndexKeys` | creator-node/src/apiSigning.ts:109-111 | in the node an array index comes before every key that is none and before every larger index |
| `ApiSigning.SortIsCanonical` | creator-node/src/apiSigning.ts:102-112 | two values have the same sorted form if and only if they differ only in key order at any depth |
| `ApiSigning.SortOnlyReorders` | creator-node/src/apiSigning.ts:102-112 | sorting changes nothing but key order |
| `ApiSigning.SortIsIdempotent` | creator-node/src/apiSigning.ts:102-112 | sorting twice is sorting once |
| `ApiSigning.SignedTextIgnoresOnlyKeyOrder` | creator-node/src/apiSigning.ts:15-22 | the signed strings are equal if and only if the values differ only in key order |
| `ApiSigning.Scheme.RecoversFromReordering` | creator-node/src/apiSigning.ts:76-82 | a signature over a value recovers its signer from any reordering |
| `ApiSigning.Scheme.RecoversOnlyFromReordering` | creator-node/src/apiSigning.ts:76-82 | with a collision-free hash, from reorderings only |
| `ApiSigning.SchemeLawsAreConsistent` | creator-node/src/apiSigning.ts:76-82 | there is a scheme that meets all the laws these results ask for |
| `ApiSigning.ListenSigner.GenerateListenTimestampAndSignature` | creator-node/src/apiSigning.ts:50-68 | what it returns is less than 300000 milliseconds old and names the given key's wallet if and only if the cache held nothing fresh or a signature of that key; a fresh one signs the data listen and the time |
| `ApiSigning.ListenSigner.SecondKeyGetsTheFirst` | creator-node/src/apiSigning.ts:51-59 | two keys within the age limit: the second caller gets a signature that names the first key's wallet and not its own |
| `ApiSigning.SortWhilePrinting` | discovery-provider/src/api_helpers.py:96-104 | printing with sorted keys is printing the sorted value |
| `ApiSigning.ServicesSignSameText` | discovery-provider/src/api_helpers.py:96-137 | the node's text and the provider's are equal if and only if the two orders agree on the keys of every object |
| `ApiSigning.PlainKeysAgree` | discovery-provider/src/api_helpers.py:96-137 | they agree when no key is an array index and all lie in the basic plane |
| `ApiSigning.IndexKeysDisagree` | creator-node/src/apiSigning.ts:109-111 | two index keys give different texts |
| `ApiSigning.AstralKeysDisagree` | creator-node/src/apiSigning.ts:109-111 | a key outside the basic plane gives different texts |
| `Heartbeat.Stream.OnTick` | creator-node/src/apiHelpers.ts:64-68 | the body grows by one character for each tick until the handler has settled, and by none from then on |
| `Heartbeat.Stream.OnResolved` | creator-node/src/apiHelpers.ts:71-76 | the body then reads as the result with one more member for the ticks so far, and no later event changes it; if the request had settled before, it stays |
| `Heartbeat.Stream.OnRejected` | creator-node/src/apiHelpers.ts:77-80 | the same for the error object; an error thrown after the terminator changes nothing |
| `Heartbeat.StreamText` | creator-node/src/apiHelpers.ts:45-82 | for every sequence of events the body is the opening, one character per tick before the handler first settles, one terminator, and nothing after it, even if it settles again |
| `Heartbeat.StreamIsTheResult` | creator-node/src/apiHelpers.ts:121-167 | the body reads as JSON if and only if the result has a member, and then as that result with one more member `_h` |
| `Heartbeat.HeartbeatKeyIsExtra` | creator-node/src/apiHelpers.ts:160-166 | that object has distinct keys if and only if the result had and used no `_h` |
| `Heartbeat.EmptyObjectIsNotJson` | creator-node/src/apiHelpers.ts:160-166 | a result without members gives a body no reader accepts |
| `RedactIp.FirstMatchIsLeftmostLongest` | comms/natsd/redact_ip.go:10-10 | the backtracking engine finds the leftmost match, as long as possible, exactly when there is one |
| `RedactIp.MatchExactly` | comms/natsd/redact_ip.go:10-10 | a text with dots at three places matches exactly when each of the four groups is one to three digits |
| `RedactIp.SpansAreTheMatches` | comms/natsd/redact_ip.go:12-13 | the spans visited are matches, and every match starts inside one |
| `RedactIp.SpansAreDisjoint` | comms/natsd/redact_ip.go:12-13 | they do not overlap |
| `RedactIp.RedactMatch` | comms/natsd/redact_ip.go:13-23 | the callback overwrites, in place, just the bytes of the match that are no dot and have two dots before them |
| `RedactIp.Redact` | comms/natsd/redact_ip.go:12-24 | the result and the input buffer both become the redacted bytes, of the same length |
| `RedactIp.NoMatchLeft` | comms/natsd/redact_ip.go:10-24 | no match is left anywhere in the output, for every byte string |
| `RedactIp.NoQuadLeft` | comms/natsd/redact_ip.go:10-24 | the output holds no four runs of one to three digits with single dots between them |
| `RedactIp.AddressIsRedacted` | comms/natsd/redact_ip.go:10-24 | four groups of one to three digits become the first two and as many x as the last two have digits |
| `RedactIp.RedactionIsIdempotent` | comms/natsd/redact_ip.go:10-24 | redacting again changes nothing |
| `RedactIp.OnlyLastTwoGroupsChange` | comms/natsd/redact_ip.go:14-21 | every match has four groups, of which the first two and all dots stay and every digit of the last two becomes an x |
| `RedactIp.OutsideMatchesUnchanged` | comms/natsd/redact_ip.go:13-13 | bytes outside the matches stay |
| `BullTruncation.TruncateBull` | creator-node/src/serviceRegistry.js:234-289 | the array pushes and key assignments compute the truncation |
| `BullTruncation.KeepsExactlyWhatFits` | creator-node/src/serviceRegistry.js:234-289 | truncation leaves a value as it is if and only if it is within the limits on depth, arrays, keys and strings |
| `BullTruncation.ResultFits` | creator-node/src/serviceRegistry.js:234-289 | the result of truncating any value is within the limits |
| `BullTruncation.FittingIsShallow` | creator-node/src/serviceRegistry.js:240-287 | what is within the limits nests at most 7 non-empty containers and has no array over 100 |
| `BullTruncation.TruncationIsIdempotent` | creator-node/src/serviceRegistry.js:234-289 | truncating again changes nothing; the result nests at most 7 non-empty containers and has no array over 100 |
| `BullTruncation.DocumentedLimitsHoldExactly` | creator-node/src/serviceRegistry.js:219-289 | every string and object of the result is within the documented limits, wherever it is, if and only if neither the root nor an element of an array below containers that survive is over them |
| `BullTruncation.ArrayElementsAreNotCut` | creator-node/src/serviceRegistry.js:246-277 | as elements of an array a long string and an object of many keys get through whole |
| `BullTruncation.MembersAreCut` | creator-node/src/serviceRegistry.js:255-277 | as members of an object a string over 10000, an object over 100 keys and an array over 100 elements become the notes that give their size |
| `BullTruncation.WithinLimitsIsKept` | creator-node/src/serviceRegistry.js:219-289 | what is at most 7 containers deep and within 10000 UTF-16 units, 100 elements and 100 keys everywhere comes out as it went in |
| `BullTruncation.LengthExactly` | creator-node/src/serviceRegistry.js:257-260 | a string counts each character once, and those beyond the basic plane twice |

## Left out

- SweepMigration: the interleaving is a state machine on values, one system call or statement a step; the methods of DiskManager.Node are runs of it without other runs in between. New uploads and deletions during a run are not part of it.
- SweepMigration.NothingLostExactly: takes a failed copy to leave its target standing and says that a file lies at the path, not what is in it; MigrationContent.ContentKeptExactly is without both.
- MigrationContent.ContentKeptExactly: takes the file of a needed row to be right at the start; `_copyLegacyFiles` copies a wrong one too.
- DiskManager.Node.MigrateWindow: the migration of directories, which copies nothing, is a step of the machine only.
- CidWindows: collations other than bytewise.
- UserWipe.Wiper.GatherCNodeUserDataToDelete: takes the result of the second query to come in ascending order, which it does not ask for; page sizes of 0 and 1 are excluded, and OnePerPageNeverMoves shows why.
- UserWipe.Wiper.DeleteFileOrDir: one deletion is one step, so concurrent deletions of nested paths in a chunk do not interleave inside a directory, and no system call fails on a path that exists.
- Blacklist: Redis failures beyond the chunk helper; tables that change during a run.
- Servable.BlacklistManager.IsServable: one call at a time.
- ClockRepair: users that come or go while a repair waits.
- WalletLock: other callers of the lock than the two syncs, and `clearWriteLocks` at start-up.
- Fetch: the addresses composed for each gateway, and concurrent fetches of one path.
- FilesHash: `fetchFilesHashFromDB` with negative bounds.
- UserDeletion: databases from before the migration of October 2022, where rows of AudiusUsers and Tracks still referred to Files.
- Heartbeat: the rewriting of an error into its own properties is taken as done in the event that carries it.
- ApiSigning: how a timestamp is printed; numbers that are no safe integers, and dates; repeated keys in an object.
- Json, BullTruncation: strings with lone surrogates.
- BullTruncation: values other than JSON ones, such as dates and maps, which lodash counts as empty; values too large for ECMAScript.
- `_migrateFilesWithCustomStoragePaths`: its loop flag starts undefined, so its body never runs.
- Cryptography and hashing: function parameters with the laws each lemma names.
- The sync and replica-set protocol, routing, queues, contracts and everything else in the repository: either not bookkeeping or wrappers over libraries.
