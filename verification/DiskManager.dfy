// The loops of the orphan sweep and of the legacy-path migration in creator-node/src/diskManager.ts, with the
// queries and updates of creator-node/src/dbManager.js, as code that changes the disk and the Files table.
// Every one of its statements is a step of the machine in SweepMigration.
module DiskManager {
  import opened Collections
  import opened Wrappers
  import opened StoragePaths
  import opened SweepMigration

  /** What the file system and the network do to the copy of one record. */
  datatype Attempt = Attempt(touchFails: bool, copyFails: bool, unlinkDone: bool, fetch: FetchOutcome)

  datatype FetchOutcome = Saved | Refused | Failed

  /** A page of the window: rows of the table, each once, and empty only when the window has none. */
  ghost predicate IsPage(rows: Rows, records: seq<Row>, inWindow: Row -> bool) {
    && Distinct(records) && Pending(rows, records, 0)
    && (forall r | r in records :: inWindow(r))
    && (records == [] ==> NoneLeft(rows, inWindow))
  }

  /** The query is deterministic: a function of the table. */
  ghost predicate IsPageQuery(page: Rows -> seq<Row>, inWindow: Row -> bool) {
    forall rows: Rows :: IsPage(rows, page(rows), inWindow)
  }

  ghost predicate WindowIsLegacy(inWindow: Row -> bool) {
    forall r | inWindow(r) :: !r.isDir && IsLegacy(r.storagePath)
  }

  ghost predicate NoneLeft(rows: Rows, inWindow: Row -> bool) {
    forall id | id in rows :: !inWindow(rows[id])
  }

  /** The records from the k-th on are rows as the table has them. */
  ghost predicate Pending(rows: Rows, records: seq<Row>, k: nat) {
    forall i | k <= i < |records| :: IsRowOf(rows, records[i])
  }

  ghost predicate ProperMoves(moves: seq<Move>) {
    forall m | m in moves :: IsLegacy(m.legacyPath) && Target(m.legacyPath) == Some(m.nonLegacyPath)
  }

  ghost predicate NoRowAt(rows: Rows, p: Path) {
    forall id | id in rows :: rows[id].storagePath != p
  }

  /** The first k moves have left no row where they start. */
  ghost predicate NoRowsAt(rows: Rows, moves: seq<Move>, k: nat) {
    k <= |moves| && forall i | 0 <= i < k :: NoRowAt(rows, moves[i].legacyPath)
  }

  // ---------- What an iteration may do to the table ----------

  /** Rows stay, and a row that changed had a legacy path before and has none after. */
  ghost predicate OnlyMigrates(before: Rows, after: Rows) {
    && before.Keys == after.Keys
    && forall id | id in before ::
         || after[id] == before[id]
         || (IsLegacy(before[id].storagePath) && !IsLegacy(after[id].storagePath)
             && after[id] == before[id].(storagePath := after[id].storagePath))
  }

  lemma OnlyMigratesTransitive(a: Rows, b: Rows, c: Rows)
    requires OnlyMigrates(a, b) && OnlyMigrates(b, c)
    ensures OnlyMigrates(a, c)
  {
  }

  ghost function LegacyIds(rows: Rows): set<RowId> { set id | id in rows && IsLegacy(rows[id].storagePath) }

  lemma MigratingShrinks(before: Rows, after: Rows)
    requires OnlyMigrates(before, after)
    ensures |LegacyIds(after)| <= |LegacyIds(before)|
    ensures before != after ==> |LegacyIds(after)| < |LegacyIds(before)|
  {
    var a, b := LegacyIds(before), LegacyIds(after);
    assert b <= a;
    SubsetIsSmaller(b, a);
    if before != after {
      var id :| id in before && before[id] != after[id];
      assert id in a && id !in b;
      SubsetIsSmaller(b, a - {id});
    }
  }

  lemma FetchedRowMigrates(rows: Rows, records: seq<Row>, k: nat, p: Path)
    requires Distinct(records) && Pending(rows, records, k) && k < |records|
    requires IsLegacy(records[k].storagePath) && FetchPath(records[k]) == Some(p)
    ensures OnlyMigrates(rows, RepointFetched(rows, records[k], p))
    ensures Pending(RepointFetched(rows, records[k], p), records, k + 1)
    ensures RepointFetched(rows, records[k], p) ==
            if records[k].skipped then rows else rows[records[k].fileUUID := records[k].(storagePath := p)]
  {
    var r := records[k];
    StorageLocationIsInFilesDirectory(r.multihash, r.dirMultihash, r.fileName);
    InFilesDirectoryIsNotLegacy(p);
    assert IsRowOf(rows, r);
  }

  lemma StaysPending(rows: Rows, records: seq<Row>, k: nat)
    requires Pending(rows, records, k)
    ensures OnlyMigrates(rows, rows) && Pending(rows, records, k + 1)
  {
  }

  /** One of the first k moves starts here. */
  ghost predicate Starts(moves: seq<Move>, k: nat, p: Path)
    requires k <= |moves|
  {
    exists i :: 0 <= i < k && moves[i].legacyPath == p
  }

  /** The first k moves have taken every row at the start of one to its path's target, and no other row anywhere. */
  ghost predicate UpdatedTo(before: Rows, after: Rows, moves: seq<Move>, k: nat) {
    && k <= |moves| && after.Keys == before.Keys
    && forall id | id in before ::
         var p := before[id].storagePath;
         if Starts(moves, k, p) then
           Target(p).Some? && after[id] == before[id].(storagePath := Target(p).value)
         else after[id] == before[id]
  }

  lemma NextUpdate(before: Rows, rows: Rows, moves: seq<Move>, k: nat)
    requires ProperMoves(moves) && k < |moves| && UpdatedTo(before, rows, moves, k)
    ensures UpdatedTo(before, Repoint(rows, moves[k]), moves, k + 1)
  {
    var m := moves[k];
    assert m in moves;
    forall id | id in before
      ensures var p := before[id].storagePath;
              if Starts(moves, k + 1, p) then
                Target(p).Some? && Repoint(rows, m)[id] == before[id].(storagePath := Target(p).value)
              else Repoint(rows, m)[id] == before[id]
    {
      StartsNext(moves, k, before[id].storagePath);
      if Starts(moves, k, before[id].storagePath) {
        TargetIsNotLegacy(before[id].storagePath);
      }
    }
  }

  lemma StartsNext(moves: seq<Move>, k: nat, p: Path)
    requires k < |moves|
    ensures Starts(moves, k + 1, p) <==> Starts(moves, k, p) || moves[k].legacyPath == p
  {
    if i :| 0 <= i < k && moves[i].legacyPath == p {
      assert Starts(moves, k + 1, p);
    }
  }

  lemma UpdatedMigrates(before: Rows, after: Rows, moves: seq<Move>, k: nat)
    requires ProperMoves(moves) && UpdatedTo(before, after, moves, k)
    ensures OnlyMigrates(before, after) && NoRowsAt(after, moves, k)
  {
    assert forall i | 0 <= i < k :: moves[i] in moves;
    forall id | id in before && Starts(moves, k, before[id].storagePath)
      ensures IsLegacy(before[id].storagePath) && !IsLegacy(after[id].storagePath)
    {
      TargetIsNotLegacy(before[id].storagePath);
    }
    forall i, id | 0 <= i < k && id in after ensures after[id].storagePath != moves[i].legacyPath {
      assert before[id].storagePath == moves[i].legacyPath ==> Starts(moves, k, before[id].storagePath);
    }
  }

  function Pushed(copied: seq<Move>, r: Row, push: bool): seq<Move>
    requires push ==> Target(r.storagePath).Some?
  {
    if push then copied + [MoveOf(r)] else copied
  }

  ghost predicate MovesOfFirst(records: seq<Row>, k: nat, moves: seq<Move>) {
    forall i | 0 <= i < k && i < |records| :: Target(records[i].storagePath).Some? && MoveOf(records[i]) in moves
  }

  lemma PushKeeps(records: seq<Row>, k: nat, prior: seq<Move>, moves: seq<Move>)
    requires k < |records| && IsLegacy(records[k].storagePath) && ProperMoves(prior)
    requires moves == prior || (Target(records[k].storagePath).Some? && moves == Pushed(prior, records[k], true))
    ensures ProperMoves(moves)
    ensures MovesOfFirst(records, k, prior) && moves != prior ==> MovesOfFirst(records, k + 1, moves)
  {
  }

  // ---------- Steps of the machine ----------

  class Node {
    var files: set<Path>
    var rows: Rows
    /** Where the sweeps and the migration stand. */
    ghost var sweeps: map<SweepId, Sweep>
    ghost var mig: Migration
    /** The run so far. */
    ghost var start: State
    ghost var actions: seq<Action>

    ghost function Snapshot(): State
      reads this
    {
      State(files, rows, sweeps, mig)
    }

    /** What has been done is a run of the machine. */
    ghost predicate Valid()
      reads this
    {
      start.Runs(actions) && start.Run(actions) == Snapshot()
    }

    constructor (files: set<Path>, rows: Rows)
      ensures Valid() && start == Snapshot() == State(files, rows, map[], Idle) && actions == []
    {
      this.files, this.rows, sweeps, mig := files, rows, map[], Idle;
      start, actions := State(files, rows, map[], Idle), [];
    }

    /** sweepSubdirectoriesInFiles on one subdirectory; rmFails are the paths that rm cannot remove. */
    method SweepSubdirectory(ghost i: SweepId, found: set<Path>, rmFails: set<Path>)
      requires Valid() && forall p | p in found :: InFilesDirectory(p)
      modifies this`files, this`sweeps, this`actions
      ensures Valid()
      ensures forall p :: p in files <==>
                p in old(files) && (p in found && p !in rmFails ==> exists id :: id in rows && rows[id].multihash == Leaf(p))
    {
      RunSnoc(start, actions, ListFiles(i, found));
      actions := actions + [ListFiles(i, found)];
      var listed := found * files;
      sweeps := sweeps[i := Listed(listed)];

      RunSnoc(start, actions, QueryDb(i));
      actions := actions + [QueryDb(i)];
      var cidsInDB := Multihashes(rows);
      var toDelete := set p | p in listed && Leaf(p) !in cidsInDB;
      sweeps := sweeps[i := Queried(toDelete)];

      Rm(i, toDelete, rmFails);
    }

    /** rm with these paths as its arguments. */
    method Rm(ghost i: SweepId, toDelete: set<Path>, rmFails: set<Path>)
      requires Valid() && i in sweeps && sweeps[i] == Queried(toDelete)
      modifies this`files, this`actions
      ensures Valid() && files == old(files) - (toDelete - rmFails)
    {
      var left := toDelete - rmFails;
      ghost var before := files;
      while left != {}
        invariant left <= toDelete - rmFails && files == before - (toDelete - rmFails - left)
        invariant Valid()
        decreases left
      {
        var path :| path in left;
        RunSnoc(start, actions, RemoveFile(i, path));
        actions := actions + [RemoveFile(i, path)];
        files := files - {path};
        left := left - {path};
      }
    }

    // Single statements of the migration, on the record that it has reached.

    ghost predicate Reached(r: Row, rest: seq<Row>)
      reads this
    {
      && Valid() && !mig.Idle? && !mig.Updating?
      && mig.todo == [r] + rest && Target(r.storagePath).Some?
    }

    ghost method PassOver(r: Row, rest: seq<Row>)
      requires Valid() && mig.Copying? && mig.todo == [r] + rest && Target(r.storagePath).None?
      modifies this`mig, this`actions
      ensures Valid() && mig == Copying(rest, old(mig.copied))
    {
      RunSnoc(start, actions, NoTarget);
      actions, mig := actions + [NoTarget], Copying(rest, mig.copied);
    }

    /** _touch */
    method Touch(r: Row, ghost rest: seq<Row>, nonLegacyPath: Path)
      requires Reached(r, rest) && mig.Copying? && Some(nonLegacyPath) == Target(r.storagePath)
      modifies this`files, this`mig, this`actions
      ensures Reached(r, rest) && files == old(files) + {nonLegacyPath} && mig == Touched([r] + rest, old(mig.copied))
    {
      RunSnoc(start, actions, TouchFile);
      actions, mig := actions + [TouchFile], Touched(mig.todo, mig.copied);
      files := files + {nonLegacyPath};
    }

    /** An error other than that the file is missing. */
    ghost method FailCopy(r: Row, rest: seq<Row>)
      requires Reached(r, rest) && (mig.Copying? || mig.Touched?)
      modifies this`mig, this`actions
      ensures Valid() && mig == Copying(rest, Pushed(old(mig.copied), r, r.skipped))
    {
      RunSnoc(start, actions, CopyFails);
      actions, mig := actions + [CopyFails], Copying(rest, Pushed(mig.copied, r, r.skipped));
    }

    /** fs.copyFile, when it finds the file. */
    ghost method FinishCopy(r: Row, rest: seq<Row>)
      requires Reached(r, rest) && mig.Touched? && r.storagePath in files && Target(r.storagePath).value in files
      modifies this`mig, this`actions
      ensures Valid() && mig == Copying(rest, Pushed(old(mig.copied), r, true))
    {
      RunSnoc(start, actions, CopyFile);
      actions, mig := actions + [CopyFile], Copying(rest, Pushed(mig.copied, r, true));
      assert files + {Target(r.storagePath).value} == files;
    }

    /** fs.copyFile, when it does not. */
    ghost method MissFile(r: Row, rest: seq<Row>)
      requires Reached(r, rest) && mig.Touched? && r.storagePath !in files
      modifies this`mig, this`actions
      ensures Reached(r, rest) && mig == NotFound([r] + rest, old(mig.copied))
    {
      RunSnoc(start, actions, CopyFindsNothing);
      actions, mig := actions + [CopyFindsNothing], NotFound(mig.todo, mig.copied);
    }

    method Unlink(r: Row, ghost rest: seq<Row>, nonLegacyPath: Path, unlinkDone: bool)
      requires Reached(r, rest) && mig.NotFound? && Some(nonLegacyPath) == Target(r.storagePath)
      modifies this`files, this`mig, this`actions
      ensures Reached(r, rest) && mig == Unlinked([r] + rest, old(mig.copied))
      ensures files == if unlinkDone then old(files) - {nonLegacyPath} else old(files)
    {
      RunSnoc(start, actions, UnlinkTouched(unlinkDone));
      actions, mig := actions + [UnlinkTouched(unlinkDone)], Unlinked(mig.todo, mig.copied);
      files := if unlinkDone then files - {nonLegacyPath} else files;
    }

    /** The fetch writes its file, and then the row is updated unless it is skipped. */
    method SaveFetched(r: Row, ghost rest: seq<Row>, p: Path)
      requires Reached(r, rest) && mig.Unlinked? && FetchPath(r) == Some(p)
      modifies this`files, this`rows, this`mig, this`actions
      ensures Valid() && mig == Copying(rest, Pushed(old(mig.copied), r, true))
      ensures files == old(files) + {p} && rows == RepointFetched(old(rows), r, p)
    {
      RunSnoc(start, actions, FetchFile);
      actions, mig := actions + [FetchFile], Fetched(mig.todo, mig.copied);
      files := files + {p};
      RunSnoc(start, actions, UpdateFetchedRow);
      actions, mig := actions + [UpdateFetchedRow], Copying(rest, Pushed(mig.copied, r, true));
      rows := RepointFetched(rows, r, p);
    }

    ghost method FailFetch(r: Row, rest: seq<Row>)
      requires Reached(r, rest) && mig.Unlinked?
      modifies this`mig, this`actions
      ensures Valid() && mig == Copying(rest, Pushed(old(mig.copied), r, r.skipped))
    {
      RunSnoc(start, actions, FetchFails);
      actions, mig := actions + [FetchFails], Copying(rest, Pushed(mig.copied, r, r.skipped));
    }

    /** The fetch fails as the CID is not servable: for a skipped row that counts as a success. */
    ghost method AcceptRefusal(r: Row, rest: seq<Row>)
      requires Reached(r, rest) && mig.Unlinked? && r.skipped
      modifies this`mig, this`actions
      ensures Valid() && mig == Copying(rest, Pushed(old(mig.copied), r, true))
    {
      RunSnoc(start, actions, FetchRefused);
      actions, mig := actions + [FetchRefused], Copying(rest, Pushed(mig.copied, r, true));
    }

    ghost method BeginUpdates()
      requires Valid() && mig.Copying? && mig.todo == []
      modifies this`mig, this`actions
      ensures Valid() && mig == Updating(old(mig.copied))
    {
      RunSnoc(start, actions, StartUpdates);
      actions, mig := actions + [StartUpdates], Updating(mig.copied);
    }

    /** One UPDATE of updateLegacyPathDbRows. */
    method UpdateNext(move: Move, ghost rest: seq<Move>)
      requires Valid() && mig == Updating([move] + rest)
      modifies this`rows, this`mig, this`actions
      ensures Valid() && rows == Repoint(old(rows), move) && mig == Updating(rest)
    {
      RunSnoc(start, actions, UpdateRows);
      actions, mig := actions + [UpdateRows], Updating(rest);
      rows := Repoint(rows, move);
    }

    ghost method EndUpdates()
      requires Valid() && mig.Updating?
      modifies this`mig, this`actions
      ensures Valid() && mig == Idle
    {
      RunSnoc(start, actions, AbandonUpdates);
      actions, mig := actions + [AbandonUpdates], Idle;
    }

    ghost method BeginPage(records: seq<Row>)
      requires Valid() && mig == Idle
      requires forall r | r in records :: IsRowOf(rows, r) && !r.isDir && IsLegacy(r.storagePath)
      modifies this`mig, this`actions
      ensures Valid() && mig == Copying(records, [])
    {
      RunSnoc(start, actions, LoadPage(records));
      actions, mig := actions + [LoadPage(records)], Copying(records, []);
    }

    /**
     * The body of the loop of _copyLegacyFiles, on the k-th record. The record is pushed when its copy or
     * its fetch succeeds, and, if it is skipped, whatever happens once it has a target.
     */
    method CopyLegacyFile(records: seq<Row>, k: nat, attempt: Attempt, copiedPaths: seq<Move>) returns (moves: seq<Move>)
      requires Valid() && k < |records| && mig == Copying(records[k..], copiedPaths)
      requires Distinct(records) && Pending(rows, records, k) && IsLegacy(records[k].storagePath)
      modifies this`files, this`rows, this`mig, this`actions
      ensures Valid() && mig == Copying(records[k + 1..], moves)
      ensures OnlyMigrates(old(rows), rows) && Pending(rows, records, k + 1)
      ensures var r, target := records[k], Target(records[k].storagePath);
              if target.None? then moves == copiedPaths && files == old(files) && rows == old(rows)
              else
                && moves == Pushed(copiedPaths, r,
                     r.skipped || CopySucceeds(old(files), r, attempt) || FetchSucceeds(old(files), r, attempt))
                && FilesAfterCopy(old(files), files, r, target.value, attempt)
                && rows == if FetchSucceeds(old(files), r, attempt) && !r.skipped
                           then old(rows)[r.fileUUID := r.(storagePath := FetchPath(r).value)] else old(rows)
    {
      var r := records[k];
      ghost var rest := records[k + 1..];
      assert records[k..] == [r] + rest;
      var target := Target(r.storagePath);
      if target.None? {
        PassOver(r, rest);
        return copiedPaths;
      }
      var nonLegacyPath := target.value;
      moves := Pushed(copiedPaths, r, r.skipped);
      if attempt.touchFails {
        FailCopy(r, rest);
        return;
      }
      TargetIsNotLegacy(r.storagePath);
      Touch(r, rest, nonLegacyPath);
      moves := CopyTouched(records, k, attempt, nonLegacyPath, copiedPaths);
    }

    /** fs.copyFile onto the touched file. */
    method CopyTouched(records: seq<Row>, k: nat, attempt: Attempt, nonLegacyPath: Path, copiedPaths: seq<Move>)
      returns (moves: seq<Move>)
      requires k < |records| && Reached(records[k], records[k + 1..]) && mig == Touched(records[k..], copiedPaths)
      requires Target(records[k].storagePath) == Some(nonLegacyPath) && nonLegacyPath in files
      requires Distinct(records) && Pending(rows, records, k) && IsLegacy(records[k].storagePath)
      modifies this`files, this`rows, this`mig, this`actions
      ensures Valid() && mig == Copying(records[k + 1..], moves)
      ensures OnlyMigrates(old(rows), rows) && Pending(rows, records, k + 1)
      ensures var r, p := records[k], FetchPath(records[k]);
              var left := if attempt.unlinkDone then old(files) - {nonLegacyPath} else old(files);
              if attempt.copyFails || r.storagePath in old(files) then
                && files == old(files) && rows == old(rows)
                && moves == Pushed(copiedPaths, r, r.skipped || !attempt.copyFails)
              else if attempt.fetch.Saved? && p.Some? then
                && files == left + {p.value} && moves == Pushed(copiedPaths, r, true)
                && rows == (if r.skipped then old(rows) else old(rows)[r.fileUUID := r.(storagePath := p.value)])
              else files == left && moves == Pushed(copiedPaths, r, r.skipped) && rows == old(rows)
    {
      var r := records[k];
      ghost var rest := records[k + 1..];
      moves := Pushed(copiedPaths, r, r.skipped || !attempt.copyFails);
      StaysPending(rows, records, k);
      if attempt.copyFails {
        FailCopy(r, rest);
      } else if r.storagePath in files {
        FinishCopy(r, rest);
      } else {
        moves := FallBack(records, k, attempt, nonLegacyPath, copiedPaths);
      }
    }

    /** The fallback for a file that is not there: the touched file is unlinked first. */
    method FallBack(records: seq<Row>, k: nat, attempt: Attempt, nonLegacyPath: Path, copiedPaths: seq<Move>)
      returns (moves: seq<Move>)
      requires k < |records| && Reached(records[k], records[k + 1..]) && mig == Touched(records[k..], copiedPaths)
      requires Target(records[k].storagePath) == Some(nonLegacyPath) && records[k].storagePath !in files
      requires Distinct(records) && Pending(rows, records, k) && IsLegacy(records[k].storagePath)
      modifies this`files, this`rows, this`mig, this`actions
      ensures Valid() && mig == Copying(records[k + 1..], moves)
      ensures OnlyMigrates(old(rows), rows) && Pending(rows, records, k + 1)
      ensures var r, p := records[k], FetchPath(records[k]);
              var left := if attempt.unlinkDone then old(files) - {nonLegacyPath} else old(files);
              if attempt.fetch.Saved? && p.Some? then
                && files == left + {p.value} && moves == Pushed(copiedPaths, r, true)
                && rows == (if r.skipped then old(rows) else old(rows)[r.fileUUID := r.(storagePath := p.value)])
              else files == left && moves == Pushed(copiedPaths, r, r.skipped) && rows == old(rows)
    {
      var r := records[k];
      ghost var rest := records[k + 1..];
      assert records[k..] == [r] + rest;
      MissFile(r, rest);
      Unlink(r, rest, nonLegacyPath, attempt.unlinkDone);
      moves := FetchInstead(records, k, attempt.fetch, copiedPaths);
    }

    /** _migrateFileByFetchingFromNetwork, after the touched file was unlinked. */
    method FetchInstead(records: seq<Row>, k: nat, fetch: FetchOutcome, copiedPaths: seq<Move>) returns (moves: seq<Move>)
      requires k < |records| && Reached(records[k], records[k + 1..]) && mig == Unlinked(records[k..], copiedPaths)
      requires Distinct(records) && Pending(rows, records, k) && IsLegacy(records[k].storagePath)
      modifies this`files, this`rows, this`mig, this`actions
      ensures Valid() && mig == Copying(records[k + 1..], moves)
      ensures OnlyMigrates(old(rows), rows) && Pending(rows, records, k + 1)
      ensures moves == Pushed(copiedPaths, records[k], (fetch.Saved? && FetchPath(records[k]).Some?) || records[k].skipped)
      ensures var r := records[k];
              var p := FetchPath(r);
              if fetch.Saved? && p.Some? then
                && files == old(files) + {p.value}
                && rows == (if r.skipped then old(rows) else old(rows)[r.fileUUID := r.(storagePath := p.value)])
              else files == old(files) && rows == old(rows)
    {
      var r := records[k];
      ghost var rest := records[k + 1..];
      var p := FetchPath(r);
      if fetch.Saved? && p.Some? {
        FetchedRowMigrates(rows, records, k, p.value);
        SaveFetched(r, rest, p.value);
        moves := Pushed(copiedPaths, r, true);
        return;
      }
      StaysPending(rows, records, k);
      if fetch.Refused? && r.skipped {
        AcceptRefusal(r, rest);
        moves := Pushed(copiedPaths, r, true);
      } else {
        FailFetch(r, rest);
        moves := Pushed(copiedPaths, r, r.skipped);
      }
    }

    /** _copyLegacyFiles */
    method CopyLegacyFiles(records: seq<Row>, attempts: nat -> Attempt) returns (moves: seq<Move>)
      requires Valid() && mig == Copying(records, [])
      requires Distinct(records) && Pending(rows, records, 0)
      requires forall r | r in records :: IsLegacy(r.storagePath)
      modifies this`files, this`rows, this`mig, this`actions
      ensures Valid() && mig == Copying([], moves)
      ensures OnlyMigrates(old(rows), rows) && ProperMoves(moves)
      ensures AllCopied(old(files), records, attempts) ==>
                && rows == old(rows) && old(files) <= files
                && forall r | r in records :: MoveOf(r) in moves
    {
      moves := [];
      assert records[0..] == records;
      for k := 0 to |records|
        invariant Valid() && mig == Copying(records[k..], moves)
        invariant OnlyMigrates(old(rows), rows) && Pending(rows, records, k) && ProperMoves(moves)
        invariant AllCopied(old(files), records, attempts) ==>
                    rows == old(rows) && old(files) <= files && MovesOfFirst(records, k, moves)
      {
        assert records[k] in records;
        ghost var before, prior := rows, moves;
        moves := CopyLegacyFile(records, k, attempts(k), moves);
        OnlyMigratesTransitive(old(rows), before, rows);
        PushKeeps(records, k, prior, moves);
      }
    }

    /** The k-th update takes every row away from where its move starts. */
    method UpdateRow(ghost initial: Rows, moves: seq<Move>, k: nat)
      requires Valid() && k < |moves| && mig == Updating(moves[k..]) && ProperMoves(moves)
      requires UpdatedTo(initial, rows, moves, k)
      modifies this`rows, this`mig, this`actions
      ensures Valid() && mig == Updating(moves[k + 1..])
      ensures UpdatedTo(initial, rows, moves, k + 1)
    {
      ghost var before := rows;
      assert moves[k..] == [moves[k]] + moves[k + 1..];
      UpdateNext(moves[k], moves[k + 1..]);
      NextUpdate(initial, before, moves, k);
    }

    /**
     * updateLegacyPathDbRows: each update stands on its own, so those made before an error stay.
     * failsAt is the update that raises the error, if any does.
     */
    method UpdateLegacyPathDbRows(copiedFilePaths: seq<Move>, failsAt: Option<nat>) returns (ok: bool)
      requires Valid() && mig == Copying([], copiedFilePaths) && ProperMoves(copiedFilePaths)
      modifies this`rows, this`mig, this`actions
      ensures Valid() && mig == Idle
      ensures ok <==> (failsAt.Some? ==> failsAt.value >= |copiedFilePaths|)
      ensures UpdatedTo(old(rows), rows, copiedFilePaths, if ok then |copiedFilePaths| else failsAt.value)
      ensures OnlyMigrates(old(rows), rows)
      ensures ok ==> NoRowsAt(rows, copiedFilePaths, |copiedFilePaths|)
    {
      BeginUpdates();
      assert copiedFilePaths[0..] == copiedFilePaths;
      ok := true;
      var k := 0;
      while k < |copiedFilePaths| && ok
        invariant k <= |copiedFilePaths| && (failsAt.Some? ==> k <= failsAt.value) && (!ok ==> failsAt == Some(k))
        invariant Valid()
        invariant mig == Updating(copiedFilePaths[k..]) && (!ok ==> k < |copiedFilePaths|)
        invariant UpdatedTo(old(rows), rows, copiedFilePaths, k)
        decreases |copiedFilePaths| - k, ok
      {
        if failsAt == Some(k) {
          ok := false;
        } else {
          UpdateRow(old(rows), copiedFilePaths, k);
          k := k + 1;
        }
      }
      UpdatedMigrates(old(rows), rows, copiedFilePaths, k);
      EndUpdates();
    }

    /** The body of the loop on a nonempty page. */
    method MigratePage(
        records: seq<Row>, ghost inWindow: Row -> bool, attempts: nat -> Attempt, failsAt: Option<nat>)
      requires Valid() && mig == Idle && IsPage(rows, records, inWindow) && WindowIsLegacy(inWindow)
      modifies this`files, this`rows, this`mig, this`actions
      ensures Valid() && mig == Idle
      ensures OnlyMigrates(old(rows), rows)
      ensures failsAt.None? && AllCopied(old(files), records, attempts) ==> Dealt(rows, records) && old(files) <= files
    {
      assert forall r | r in records :: inWindow(r) && IsRowOf(rows, r);
      BeginPage(records);
      var copiedFilePaths := CopyLegacyFiles(records, attempts);
      ghost var copied := rows;
      var ok := UpdateLegacyPathDbRows(copiedFilePaths, failsAt);
      OnlyMigratesTransitive(old(rows), copied, rows);
      if failsAt.None? && AllCopied(old(files), records, attempts) {
        forall r | r in records ensures r.fileUUID in rows && rows[r.fileUUID] != r {
          assert MoveOf(r) in copiedFilePaths && IsRowOf(old(rows), r);
          var i :| 0 <= i < |copiedFilePaths| && copiedFilePaths[i] == MoveOf(r);
          assert NoRowAt(rows, copiedFilePaths[i].legacyPath);
        }
      }
    }

    /** The n-th turn of the loop that follows, since these files and rows. */
    method MigrateNext(
        ghost before: set<Path>, ghost initial: Rows, records: seq<Row>, ghost inWindow: Row -> bool,
        attempts: nat -> nat -> Attempt, failsAt: nat -> Option<nat>, n: nat)
      requires Valid() && mig == Idle && IsPage(rows, records, inWindow) && WindowIsLegacy(inWindow)
      requires OnlyMigrates(initial, rows)
      modifies this`files, this`rows, this`mig, this`actions
      ensures Valid() && mig == Idle && OnlyMigrates(initial, rows)
      ensures rows == old(rows) || |LegacyIds(rows)| < |LegacyIds(old(rows))|
      ensures AllGoesWell(before, initial, inWindow, attempts, failsAt) && before <= old(files) ==>
                Dealt(rows, records) && before <= files
    {
      ghost var listed := rows;
      if AllGoesWell(before, initial, inWindow, attempts, failsAt) && before <= files {
        PageGoesWell(before, initial, files, rows, records, inWindow, attempts, failsAt, n);
      }
      MigratePage(records, inWindow, attempts(n), failsAt(n));
      OnlyMigratesTransitive(initial, listed, rows);
      MigratingShrinks(listed, rows);
    }

    /**
     * _migrateNonDirFilesWithLegacyStoragePaths on one window. attempts and failsAt say what goes wrong in
     * each iteration. It always ends, on an empty page or on a page equal to the one before; it gives no
     * row a legacy path; when nothing goes wrong it leaves no row of the window behind; and it is a run of
     * the machine, so what that never loses this does not lose.
     */
    method MigrateWindow(
        page: Rows -> seq<Row>,
        ghost inWindow: Row -> bool,
        attempts: nat -> nat -> Attempt,
        failsAt: nat -> Option<nat>)
      returns (prevResults: seq<Row>, results: seq<Row>, iterations: nat)
      requires Valid() && mig == Idle && IsPageQuery(page, inWindow) && WindowIsLegacy(inWindow)
      modifies this`files, this`rows, this`mig, this`actions
      ensures Valid() && mig == Idle
      ensures OnlyMigrates(old(rows), rows)
      ensures results == [] || results == prevResults
      ensures results == [] ==> forall id | id in rows :: !inWindow(rows[id])
      ensures AllGoesWell(old(files), old(rows), inWindow, attempts, failsAt) ==>
                forall id | id in rows :: !inWindow(rows[id])
      ensures iterations <= 2 * |LegacyIds(old(rows))| + 2
    {
      prevResults, results, iterations := [], [], 0;
      var newResultsFound := true;
      ghost var idle := 0;
      ghost var well := AllGoesWell(files, rows, inWindow, attempts, failsAt);
      while newResultsFound
        invariant Valid() && mig == Idle
        invariant OnlyMigrates(old(rows), rows)
        invariant !newResultsFound ==> results == [] || results == prevResults
        invariant !newResultsFound && results == [] ==> NoneLeft(rows, inWindow)
        invariant well ==> old(files) <= files && if newResultsFound then Dealt(rows, results) else results == []
        invariant idle == 0 || idle == 1
        invariant newResultsFound && idle == 1 ==> results == page(rows)
        invariant iterations + 2 * |LegacyIds(rows)| <=
                    2 * |LegacyIds(old(rows))| + idle + (if newResultsFound then 0 else 1)
        decreases |LegacyIds(rows)|, newResultsFound, 1 - idle
      {
        ghost var before := rows;
        prevResults := results;
        results := page(rows);
        assert IsPage(rows, results, inWindow);
        iterations := iterations + 1;
        if results != [] {
          newResultsFound := prevResults != results;
          DealtPageDiffers(before, prevResults, results);
          MigrateNext(old(files), old(rows), results, inWindow, attempts, failsAt, iterations - 1);
          idle := if rows == before then 1 else 0;
        } else {
          newResultsFound := false;
        }
      }
    }
  }

  /**
   * Whatever sweeps and pages a node has been through, it has the file of every needed row, if it had at
   * the start and no skipped row endangered one.
   */
  lemma NodeKeepsFiles(node: Node)
    requires node.Valid() && AtRest(node.start) && NoneEndangered(node.start)
    ensures NothingLost(node.Snapshot())
  {
    NothingLostExactly(node.start);
  }

  ghost predicate IsRowOf(rows: Rows, r: Row) { r.fileUUID in rows && rows[r.fileUUID] == r }

  lemma DealtPageDiffers(rows: Rows, dealt: seq<Row>, page: seq<Row>)
    requires page != [] && Pending(rows, page, 0)
    ensures Dealt(rows, dealt) ==> dealt != page
  {
    assert page[0] in page && IsRowOf(rows, page[0]);
  }

  /** Every record of the page has a target and is copied. */
  ghost predicate AllCopied(files: set<Path>, records: seq<Row>, attempts: nat -> Attempt) {
    forall i | 0 <= i < |records| :: Target(records[i].storagePath).Some? && CopySucceeds(files, records[i], attempts(i))
  }

  /** No record is as it was listed. */
  ghost predicate Dealt(rows: Rows, records: seq<Row>) {
    forall r | r in records :: r.fileUUID in rows && rows[r.fileUUID] != r
  }

  /** No copy and no update fails, and every row of the window has a target and its file. */
  ghost predicate AllGoesWell(
    files: set<Path>, rows: Rows, inWindow: Row -> bool, attempts: nat -> nat -> Attempt, failsAt: nat -> Option<nat>)
  {
    && (forall n, i :: !attempts(n)(i).touchFails && !attempts(n)(i).copyFails)
    && (forall n :: failsAt(n).None?)
    && WindowHasTargets(rows, inWindow)
    && forall id | id in rows && inWindow(rows[id]) :: rows[id].storagePath in files
  }

  ghost predicate WindowHasTargets(rows: Rows, inWindow: Row -> bool) {
    forall id | id in rows && inWindow(rows[id]) :: Target(rows[id].storagePath).Some?
  }

  /** What is still in the window has been there from the start, and so has its file. */
  lemma PageGoesWell(
      before: set<Path>, initial: Rows, files: set<Path>, rows: Rows, records: seq<Row>, inWindow: Row -> bool,
      attempts: nat -> nat -> Attempt, failsAt: nat -> Option<nat>, n: nat)
    requires OnlyMigrates(initial, rows) && IsPage(rows, records, inWindow) && WindowIsLegacy(inWindow)
    requires AllGoesWell(before, initial, inWindow, attempts, failsAt) && before <= files
    ensures failsAt(n).None? && AllCopied(files, records, attempts(n))
  {
    forall i | 0 <= i < |records| ensures IsRowOf(initial, records[i]) && inWindow(records[i]) {
      assert records[i] in records && IsRowOf(rows, records[i]);
    }
  }

  /** What the handling of one record leaves on disk, by how far it gets. */
  ghost predicate FilesAfterCopy(before: set<Path>, after: set<Path>, r: Row, target: Path, attempt: Attempt) {
    if attempt.touchFails then after == before
    else if attempt.copyFails || r.storagePath in before then after == before + {target}
    else
      var left := if attempt.unlinkDone then before - {target} else before + {target};
      after == if attempt.fetch.Saved? && FetchPath(r).Some? then left + {FetchPath(r).value} else left
  }

  /** Nothing goes wrong, and the file is there. */
  predicate CopySucceeds(files: set<Path>, r: Row, attempt: Attempt) {
    !attempt.touchFails && !attempt.copyFails && r.storagePath in files
  }

  /** The file is not there, and another node has it. */
  predicate FetchSucceeds(files: set<Path>, r: Row, attempt: Attempt) {
    && !attempt.touchFails && !attempt.copyFails && r.storagePath !in files
    && attempt.fetch.Saved? && FetchPath(r).Some?
  }
}
