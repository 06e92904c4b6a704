// The orphan sweep and the legacy-path migration of creator-node/src/diskManager.ts, running over the
// same disk and the same Files table, one statement or system call at a time.
module SweepMigration {
  import opened Wrappers
  import opened StoragePaths

  type RowId = nat
  type SweepId = nat

  /** A row of Files. dirMultihash and fileName are "" where the column is null. */
  datatype Row = Row(
    fileUUID: RowId,
    multihash: string,
    storagePath: Path,
    isDir: bool,
    skipped: bool,
    dirMultihash: string,
    fileName: string)

  type Rows = map<RowId, Row>

  /** No row is listed twice. */
  ghost predicate Distinct(records: seq<Row>) {
    forall i, j | 0 <= i < j < |records| :: records[i].fileUUID != records[j].fileUUID
  }

  /** A path that a page has dealt with, and the path its rows are to get. */
  datatype Move = Move(legacyPath: Path, nonLegacyPath: Path)

  datatype Sweep = Listed(paths: set<Path>) | Queried(toDelete: set<Path>)

  /** Where the migration stands: in _copyLegacyFiles with todo[0], or in updateLegacyPathDbRows. */
  datatype Migration =
    | Idle
    | Copying(todo: seq<Row>, copied: seq<Move>)
    | Touched(todo: seq<Row>, copied: seq<Move>)
    | NotFound(todo: seq<Row>, copied: seq<Move>)
    | Unlinked(todo: seq<Row>, copied: seq<Move>)
    | Fetched(todo: seq<Row>, copied: seq<Move>)
    | Updating(moves: seq<Move>)

  datatype Action =
    // sweepSubdirectoriesInFiles: find, the query, one argument of rm at a time
    | ListFiles(i: SweepId, paths: set<Path>)
    | QueryDb(i: SweepId)
    | RemoveFile(i: SweepId, p: Path)
    // _copyLegacyFiles on one record
    | LoadPage(records: seq<Row>)
    | NoTarget
    | TouchFile
    | CopyFile
    | CopyFindsNothing
    | CopyFails
    | UnlinkTouched(done: bool)
    | FetchFile
    | UpdateFetchedRow
    | FetchRefused
    | FetchFails
    // updateLegacyPathDbRows
    | StartUpdates
    | UpdateRows
    | AbandonUpdates
    // _migrateDirsWithLegacyStoragePaths
    | LoadDirPage(records: seq<Row>)

  function Multihashes(rows: Rows): set<string> { set id | id in rows :: rows[id].multihash }

  /** UPDATE Files SET storagePath = new WHERE storagePath = old: every row there, whoever it belongs to. */
  function Repoint(rows: Rows, m: Move): Rows {
    map id | id in rows ::
      if rows[id].storagePath == m.legacyPath then rows[id].(storagePath := m.nonLegacyPath) else rows[id]
  }

  function FetchPath(r: Row): Option<Path> { StorageLocation(r.multihash, r.dirMultihash, r.fileName) }

  lemma FetchPathExactly(r: Row)
    ensures var inDir := r.dirMultihash != "" && r.fileName != "";
            FetchPath(r) ==
            if !ValidCid(r.multihash) || (inDir && !ValidCid(r.dirMultihash)) then None
            else if inDir then
              Some("/file_storage/files/" + r.dirMultihash[42..45] + "/" + r.dirMultihash + "/" + r.multihash)
            else Some("/file_storage/files/" + r.multihash[42..45] + "/" + r.multihash)
  {
    StorageLocationExactly(r.multihash, r.dirMultihash, r.fileName);
  }

  /** UPDATE Files SET storagePath = p WHERE fileUUID = r.fileUUID AND NOT skipped. */
  function RepointFetched(rows: Rows, r: Row, p: Path): Rows {
    map id | id in rows :: if id == r.fileUUID && !rows[id].skipped then rows[id].(storagePath := p) else rows[id]
  }

  function MoveOf(r: Row): Move
    requires Target(r.storagePath).Some?
  {
    Move(r.storagePath, Target(r.storagePath).value)
  }

  /** The record todo[0] is done with: pushed to copiedPaths or recorded as an error. */
  function NextRecord(todo: seq<Row>, copied: seq<Move>, push: bool): Migration
    requires todo != [] && (push ==> Target(todo[0].storagePath).Some?)
  {
    Copying(todo[1..], if push then copied + [MoveOf(todo[0])] else copied)
  }

  datatype State = State(files: set<Path>, rows: Rows, sweeps: map<SweepId, Sweep>, mig: Migration)
  {
    predicate AtRecord() {
      && !mig.Idle? && !mig.Updating?
      && mig.todo != [] && Target(mig.todo[0].storagePath).Some?
    }

    predicate Enabled(a: Action) {
      match a
      case ListFiles(i, paths) => forall p | p in paths :: InFilesDirectory(p)
      case QueryDb(i) => i in sweeps && sweeps[i].Listed?
      case RemoveFile(i, p) => i in sweeps && sweeps[i].Queried? && p in sweeps[i].toDelete
      case LoadPage(records) =>
        mig.Idle? && forall r | r in records :: r in rows.Values && !r.isDir && IsLegacy(r.storagePath)
      case LoadDirPage(records) =>
        mig.Idle? && forall r | r in records ::
          r in rows.Values && r.isDir && IsLegacy(r.storagePath) && ValidCid(r.multihash)
      case NoTarget => mig.Copying? && mig.todo != [] && Target(mig.todo[0].storagePath).None?
      case TouchFile => mig.Copying? && AtRecord()
      case CopyFile => mig.Touched? && AtRecord() && mig.todo[0].storagePath in files
      case CopyFindsNothing => mig.Touched? && AtRecord() && mig.todo[0].storagePath !in files
      case CopyFails => (mig.Copying? || mig.Touched?) && AtRecord()
      case UnlinkTouched(_) => mig.NotFound? && AtRecord()
      case FetchFile => mig.Unlinked? && AtRecord() && FetchPath(mig.todo[0]).Some?
      case UpdateFetchedRow => mig.Fetched? && AtRecord() && FetchPath(mig.todo[0]).Some?
      case FetchRefused => mig.Unlinked? && AtRecord() && mig.todo[0].skipped
      case FetchFails => mig.Unlinked? && AtRecord()
      case StartUpdates => mig.Copying? && mig.todo == []
      case UpdateRows => mig.Updating? && mig.moves != []
      case AbandonUpdates => mig.Updating?
    }

    function Step(a: Action): State
      requires Enabled(a)
    {
      match a
      case ListFiles(i, paths) => this.(sweeps := sweeps[i := Listed(paths * files)])
      case QueryDb(i) =>
        this.(sweeps := sweeps[i := Queried(set p | p in sweeps[i].paths && Leaf(p) !in Multihashes(rows))])
      case RemoveFile(i, p) => this.(files := files - {p})
      case LoadPage(records) => this.(mig := Copying(records, []))
      case LoadDirPage(records) =>
        this.(mig := Updating(seq(|records|, k requires 0 <= k < |records| && ValidCid(records[k].multihash) =>
          Move(records[k].storagePath, ComputeFilePath(records[k].multihash)))))
      case NoTarget => this.(mig := NextRecord(mig.todo, mig.copied, false))
      case TouchFile =>
        this.(files := files + {Target(mig.todo[0].storagePath).value}, mig := Touched(mig.todo, mig.copied))
      case CopyFile =>
        this.(files := files + {Target(mig.todo[0].storagePath).value}, mig := NextRecord(mig.todo, mig.copied, true))
      case CopyFindsNothing => this.(mig := NotFound(mig.todo, mig.copied))
      // A copy that fails does not keep a skipped record out of copiedPaths.
      case CopyFails => this.(mig := NextRecord(mig.todo, mig.copied, mig.todo[0].skipped))
      case UnlinkTouched(done) =>
        this.(files := if done then files - {Target(mig.todo[0].storagePath).value} else files,
              mig := Unlinked(mig.todo, mig.copied))
      case FetchFile => this.(files := files + {FetchPath(mig.todo[0]).value}, mig := Fetched(mig.todo, mig.copied))
      case UpdateFetchedRow =>
        this.(rows := RepointFetched(rows, mig.todo[0], FetchPath(mig.todo[0]).value),
              mig := NextRecord(mig.todo, mig.copied, true))
      case FetchRefused => this.(mig := NextRecord(mig.todo, mig.copied, true))
      case FetchFails => this.(mig := NextRecord(mig.todo, mig.copied, mig.todo[0].skipped))
      case StartUpdates => this.(mig := Updating(mig.copied))
      case UpdateRows => this.(rows := Repoint(rows, mig.moves[0]), mig := Updating(mig.moves[1..]))
      case AbandonUpdates => this.(mig := Idle)
    }

    ghost predicate Runs(actions: seq<Action>)
      decreases actions
    {
      actions == [] || (Enabled(actions[0]) && Step(actions[0]).Runs(actions[1..]))
    }

    ghost function Run(actions: seq<Action>): State
      requires Runs(actions)
      decreases actions
    {
      if actions == [] then this else Step(actions[0]).Run(actions[1..])
    }
  }

  // ---------- What must not be lost ----------

  /** Every row that is neither skipped nor a directory has a file at its storagePath. */
  ghost predicate NothingLost(s: State) {
    forall id | id in s.rows && Needed(s.rows[id]) :: s.rows[id].storagePath in s.files
  }

  predicate Needed(r: Row) { !r.isDir && !r.skipped }

  /**
   * A skipped row a whose migration can cost the needed row b its file. Either b shares a's legacy
   * path, and a failed copy of a, which is ignored, repoints b to a target that is not there; or a has
   * no file itself, and the fallback unlinks the target, which b uses or will use.
   */
  ghost predicate Endangers(s: State, a: Row, b: Row) {
    && !a.isDir && a.skipped && Needed(b)
    && IsLegacy(a.storagePath) && Target(a.storagePath).Some?
    && var t := Target(a.storagePath).value;
       if a.storagePath in s.files then b.storagePath == a.storagePath && t !in s.files
       else b.storagePath == t || (IsLegacy(b.storagePath) && Target(b.storagePath) == Some(t))
  }

  ghost predicate NoneEndangered(s: State) {
    forall i, j | i in s.rows && j in s.rows :: !Endangers(s, s.rows[i], s.rows[j])
  }

  /** How rows are stored: a file's path ends in its multihash, before and after the move. */
  ghost predicate RowsWellFormed(rows: Rows) {
    && (forall id | id in rows :: rows[id].fileUUID == id)
    && (forall id | id in rows && !rows[id].isDir :: PathNamesFile(rows[id]))
    && (forall i, j | i in rows && j in rows && rows[i].isDir && !rows[j].isDir ::
          IsLegacy(rows[i].storagePath) ==> rows[i].storagePath != rows[j].storagePath)
  }

  ghost predicate PathNamesFile(r: Row) {
    && Leaf(r.storagePath) == r.multihash
    && (IsLegacy(r.storagePath) && Target(r.storagePath).Some? ==> Leaf(Target(r.storagePath).value) == r.multihash)
  }

  /** The two legacy shapes the upload code has used meet PathNamesFile. */
  lemma LegacyShapesNameTheirFile(dir: string, r: Row)
    requires ValidCid(dir) && ValidCid(r.multihash)
    requires r.storagePath == STORAGE_ROOT + "/" + r.multihash ||
             r.storagePath == STORAGE_ROOT + "/" + dir + "/" + r.multihash
    ensures PathNamesFile(r) && Target(r.storagePath).Some?
  {
    TargetOfLegacyFile(r.multihash);
    TargetOfLegacyFileInDir(dir, r.multihash);
  }

  // ---------- The invariant ----------

  ghost predicate SweepsHarmless(s: State) {
    forall i | i in s.sweeps ::
      match s.sweeps[i]
      case Listed(paths) => forall p | p in paths :: InFilesDirectory(p)
      case Queried(toDelete) => forall p | p in toDelete :: InFilesDirectory(p) && Leaf(p) !in Multihashes(s.rows)
  }

  /** A pending update is safe: it repoints needed rows only to a file that is there. */
  ghost predicate MoveSafe(s: State, m: Move) {
    && IsLegacy(m.legacyPath) && InFilesDirectory(m.nonLegacyPath)
    && forall id | id in s.rows && !s.rows[id].isDir && s.rows[id].storagePath == m.legacyPath ::
         && Target(m.legacyPath) == Some(m.nonLegacyPath)
         && (Needed(s.rows[id]) ==> m.nonLegacyPath in s.files)
  }

  ghost predicate MigrationInOrder(s: State) {
    && (s.mig.Updating? ==> forall m | m in s.mig.moves :: MoveSafe(s, m))
    && (!s.mig.Idle? && !s.mig.Updating? ==>
          && (forall m | m in s.mig.copied :: MoveSafe(s, m))
          && (forall r | r in s.mig.todo :: r in s.rows.Values && !r.isDir && IsLegacy(r.storagePath)))
    && (s.mig.NotFound? || s.mig.Unlinked? || s.mig.Fetched? ==>
          s.mig.todo != [] && s.mig.todo[0].storagePath !in s.files)
  }

  ghost predicate Invariant(s: State) {
    && RowsWellFormed(s.rows) && NothingLost(s) && NoneEndangered(s) && SweepsHarmless(s) && MigrationInOrder(s)
  }

  lemma LegacyIsNotInFilesDirectory(p: Path, q: Path)
    requires IsLegacy(p) && InFilesDirectory(q)
    ensures p != q
  {
    InFilesDirectoryIsNotLegacy(q);
  }

  /** A file below the files directory appears. */
  lemma FileAdded(s: State, q: Path)
    requires Invariant(s) && InFilesDirectory(q)
    ensures Invariant(s.(files := s.files + {q}))
  {
    InFilesDirectoryIsNotLegacy(q);
    var t := s.(files := s.files + {q});
    forall i, j | i in t.rows && j in t.rows ensures !Endangers(t, t.rows[i], t.rows[j]) {
      assert !Endangers(s, s.rows[i], s.rows[j]);
    }
    assert forall m | MoveSafe(s, m) :: MoveSafe(t, m);
  }

  /** A file disappears that no needed row uses, or will use after a pending move or an ignored copy failure. */
  lemma FileRemoved(s: State, q: Path)
    requires Invariant(s) && InFilesDirectory(q)
    requires forall id | id in s.rows && Needed(s.rows[id]) ::
               s.rows[id].storagePath != q && (IsLegacy(s.rows[id].storagePath) ==> Target(s.rows[id].storagePath) != Some(q))
    ensures Invariant(s.(files := s.files - {q}))
  {
    InFilesDirectoryIsNotLegacy(q);
    var t := s.(files := s.files - {q});
    forall i, j | i in t.rows && j in t.rows ensures !Endangers(t, t.rows[i], t.rows[j]) {
      assert !Endangers(s, s.rows[i], s.rows[j]);
    }
    assert forall m | MoveSafe(s, m) :: MoveSafe(t, m);
  }

  /** A path whose leaf is nobody's multihash is nobody's storagePath, now or after the migration. */
  lemma SweptFileIsUnused(s: State, q: Path)
    requires RowsWellFormed(s.rows) && Leaf(q) !in Multihashes(s.rows)
    ensures forall id | id in s.rows && Needed(s.rows[id]) ::
              s.rows[id].storagePath != q && (IsLegacy(s.rows[id].storagePath) ==> Target(s.rows[id].storagePath) != Some(q))
  {
    forall id | id in s.rows && Needed(s.rows[id])
      ensures s.rows[id].storagePath != q && (IsLegacy(s.rows[id].storagePath) ==> Target(s.rows[id].storagePath) != Some(q))
    {
      assert PathNamesFile(s.rows[id]) && s.rows[id].multihash in Multihashes(s.rows);
    }
  }

  /** A record without a file at its legacy path is skipped, and no needed row uses its target. */
  lemma MissingRecordIsHarmless(s: State)
    requires Invariant(s) && s.AtRecord() && s.mig.todo[0].storagePath !in s.files
    ensures s.mig.todo[0].skipped
    ensures var q := Target(s.mig.todo[0].storagePath).value;
            forall id | id in s.rows && Needed(s.rows[id]) ::
              && s.rows[id].storagePath != q && s.rows[id].storagePath != s.mig.todo[0].storagePath
              && (IsLegacy(s.rows[id].storagePath) ==> Target(s.rows[id].storagePath) != Some(q))
  {
    var a := s.mig.todo[0];
    assert a in s.mig.todo;
    var i :| i in s.rows && s.rows[i] == a;
    forall id | id in s.rows && Needed(s.rows[id]) ensures !Endangers(s, a, s.rows[id]) {
      assert !Endangers(s, s.rows[i], s.rows[id]);
    }
  }

  /** Pushing a record that was copied, or that is skipped, leaves a safe move behind. */
  lemma PushedMoveIsSafe(s: State)
    requires Invariant(s) && s.AtRecord()
    requires s.mig.todo[0].skipped || Target(s.mig.todo[0].storagePath).value in s.files
    ensures MoveSafe(s, MoveOf(s.mig.todo[0]))
  {
    var a := s.mig.todo[0];
    assert a in s.mig.todo;
    TargetIsNotLegacy(a.storagePath);
    var i :| i in s.rows && s.rows[i] == a;
    forall id | id in s.rows && Needed(s.rows[id]) && s.rows[id].storagePath == a.storagePath
      ensures Target(a.storagePath).value in s.files
    {
      assert !Endangers(s, s.rows[i], s.rows[id]);
    }
  }

  lemma NextRecordInOrder(s: State, push: bool)
    requires Invariant(s) && s.AtRecord()
    requires push ==> s.mig.todo[0].skipped || Target(s.mig.todo[0].storagePath).value in s.files
    ensures Invariant(s.(mig := NextRecord(s.mig.todo, s.mig.copied, push)))
  {
    if push {
      PushedMoveIsSafe(s);
    }
    var t := s.(mig := NextRecord(s.mig.todo, s.mig.copied, push));
    assert forall m | MoveSafe(s, m) :: MoveSafe(t, m);
    assert NoneEndangered(t) by {
      forall i, j | i in t.rows && j in t.rows ensures !Endangers(t, t.rows[i], t.rows[j]) {
        assert !Endangers(s, s.rows[i], s.rows[j]);
      }
    }
    assert forall r | r in s.mig.todo[1..] :: r in s.mig.todo;
  }

  lemma RepointKeepsMultihashes(rows: Rows, m: Move)
    ensures Multihashes(Repoint(rows, m)) == Multihashes(rows)
  {
    var after := Repoint(rows, m);
    forall x | x in Multihashes(rows) ensures x in Multihashes(after) {
      var id :| id in rows && rows[id].multihash == x;
      assert after[id].multihash == x;
    }
    forall x | x in Multihashes(after) ensures x in Multihashes(rows) {
      var id :| id in after && after[id].multihash == x;
      assert rows[id].multihash == x;
    }
  }

  /** One safe update keeps everything in order. */
  lemma SafeUpdateInOrder(s: State)
    requires Invariant(s) && s.mig.Updating? && s.mig.moves != []
    ensures Invariant(s.Step(UpdateRows))
  {
    var m := s.mig.moves[0];
    var t := s.Step(UpdateRows);
    assert MoveSafe(s, m);
    InFilesDirectoryIsNotLegacy(m.nonLegacyPath);
    RepointKeepsMultihashes(s.rows, m);
    RepointKeepsRows(s, m);
    forall i, j | i in t.rows && j in t.rows ensures !Endangers(t, t.rows[i], t.rows[j]) {
      assert !Endangers(s, s.rows[i], s.rows[j]);
    }
    forall n | n in t.mig.moves ensures MoveSafe(t, n) {
      assert n in s.mig.moves && MoveSafe(s, n);
    }
  }

  lemma RepointKeepsRows(s: State, m: Move)
    requires RowsWellFormed(s.rows) && NothingLost(s) && MoveSafe(s, m) && !IsLegacy(m.nonLegacyPath)
    ensures RowsWellFormed(Repoint(s.rows, m)) && NothingLost(s.(rows := Repoint(s.rows, m)))
  {
    var after := Repoint(s.rows, m);
    forall id | id in after && !after[id].isDir ensures PathNamesFile(after[id]) {
      assert PathNamesFile(s.rows[id]);
    }
  }

  lemma NewTaskInOrder(s: State, sweeps: map<SweepId, Sweep>, mig: Migration)
    requires Invariant(s)
    requires SweepsHarmless(s.(sweeps := sweeps)) && MigrationInOrder(s.(mig := mig))
    ensures Invariant(s.(sweeps := sweeps, mig := mig))
  {
    var t := s.(sweeps := sweeps, mig := mig);
    forall i, j | i in t.rows && j in t.rows ensures !Endangers(t, t.rows[i], t.rows[j]) {
      assert !Endangers(s, s.rows[i], s.rows[j]);
    }
    assert forall m | MoveSafe(s.(mig := mig), m) :: MoveSafe(t, m);
  }

  lemma SweepStepInOrder(s: State, a: Action)
    requires Invariant(s) && s.Enabled(a) && (a.ListFiles? || a.QueryDb? || a.RemoveFile?)
    ensures Invariant(s.Step(a))
  {
    if a.RemoveFile? {
      SweptFileIsUnused(s, a.p);
      FileRemoved(s, a.p);
    } else {
      NewTaskInOrder(s, s.Step(a).sweeps, s.mig);
    }
  }

  lemma LoadInOrder(s: State, a: Action)
    requires Invariant(s) && s.Enabled(a) && (a.LoadPage? || a.LoadDirPage? || a.StartUpdates? || a.AbandonUpdates?)
    ensures Invariant(s.Step(a))
  {
    var mig := s.Step(a).mig;
    if a.LoadDirPage? {
      forall m | m in mig.moves ensures MoveSafe(s, m) {
        var k :| 0 <= k < |a.records| && m == mig.moves[k];
        DirMoveIsSafe(s, a.records[k]);
      }
    }
    assert forall m | MoveSafe(s, m) :: MoveSafe(s.(mig := mig), m);
    NewTaskInOrder(s, s.sweeps, mig);
  }

  lemma DirMoveIsSafe(s: State, r: Row)
    requires Invariant(s) && r in s.rows.Values && r.isDir && IsLegacy(r.storagePath) && ValidCid(r.multihash)
    ensures MoveSafe(s, Move(r.storagePath, ComputeFilePath(r.multihash)))
  {
    var i :| i in s.rows && s.rows[i] == r;
  }

  /** Moving to another point of the same record. */
  lemma SameRecordInOrder(s: State, mig: Migration)
    requires Invariant(s) && s.AtRecord() && !mig.Idle? && !mig.Updating?
    requires mig.todo == s.mig.todo && mig.copied == s.mig.copied
    requires mig.NotFound? || mig.Unlinked? || mig.Fetched? ==> s.mig.todo[0].storagePath !in s.files
    ensures Invariant(s.(mig := mig))
  {
    assert forall m | MoveSafe(s, m) :: MoveSafe(s.(mig := mig), m);
    NewTaskInOrder(s, s.sweeps, mig);
  }

  // The steps that handle a record up to the point where its outcome is known.

  lemma TouchInOrder(s: State)
    requires Invariant(s) && s.Enabled(TouchFile)
    ensures Invariant(s.Step(TouchFile))
  {
    var q := Target(s.mig.todo[0].storagePath).value;
    TargetIsNotLegacy(s.mig.todo[0].storagePath);
    FileAdded(s, q);
    SameRecordInOrder(s.(files := s.files + {q}), Touched(s.mig.todo, s.mig.copied));
  }

  lemma UnlinkInOrder(s: State, done: bool)
    requires Invariant(s) && s.Enabled(UnlinkTouched(done))
    ensures Invariant(s.Step(UnlinkTouched(done)))
  {
    var q := Target(s.mig.todo[0].storagePath).value;
    if done {
      TargetIsNotLegacy(s.mig.todo[0].storagePath);
      MissingRecordIsHarmless(s);
      FileRemoved(s, q);
      SameRecordInOrder(s.(files := s.files - {q}), Unlinked(s.mig.todo, s.mig.copied));
    } else {
      SameRecordInOrder(s, Unlinked(s.mig.todo, s.mig.copied));
    }
  }

  lemma FetchInOrder(s: State)
    requires Invariant(s) && s.Enabled(FetchFile)
    ensures Invariant(s.Step(FetchFile))
  {
    var r := s.mig.todo[0];
    StorageLocationIsInFilesDirectory(r.multihash, r.dirMultihash, r.fileName);
    FetchedFileInOrder(s, FetchPath(r).value);
  }

  lemma FetchedFileInOrder(s: State, p: Path)
    requires Invariant(s) && s.AtRecord() && s.mig.Unlinked? && InFilesDirectory(p)
    ensures Invariant(s.(files := s.files + {p}, mig := Fetched(s.mig.todo, s.mig.copied)))
  {
    var r := s.mig.todo[0];
    assert r in s.mig.todo;
    FileAdded(s, p);
    LegacyIsNotInFilesDirectory(r.storagePath, p);
    SameRecordInOrder(s.(files := s.files + {p}), Fetched(s.mig.todo, s.mig.copied));
  }

  lemma CopyInOrder(s: State)
    requires Invariant(s) && s.Enabled(CopyFile)
    ensures Invariant(s.Step(CopyFile))
  {
    var q := Target(s.mig.todo[0].storagePath).value;
    TargetIsNotLegacy(s.mig.todo[0].storagePath);
    FileAdded(s, q);
    NextRecordInOrder(s.(files := s.files + {q}), true);
  }

  /** The row of a fetched record is skipped, or its file would have been there, so the update leaves it. */
  lemma FetchedUpdateInOrder(s: State)
    requires Invariant(s) && s.Enabled(UpdateFetchedRow)
    ensures Invariant(s.Step(UpdateFetchedRow))
  {
    MissingRecordIsHarmless(s);
    SkippedStays(s.rows, s.mig.todo[0], FetchPath(s.mig.todo[0]).value);
    NextRecordInOrder(s, true);
  }

  lemma SkippedStays(rows: Rows, r: Row, p: Path)
    requires r.skipped && (r.fileUUID in rows ==> rows[r.fileUUID].skipped)
    ensures RepointFetched(rows, r, p) == rows
  {
  }

  /** The steps that settle a record. */
  lemma OutcomeInOrder(s: State, a: Action)
    requires Invariant(s) && s.Enabled(a)
    requires a.CopyFile? || a.CopyFails? || a.UpdateFetchedRow? || a.FetchRefused? || a.FetchFails?
    ensures Invariant(s.Step(a))
  {
    if a.CopyFile? {
      CopyInOrder(s);
    } else if a.UpdateFetchedRow? {
      FetchedUpdateInOrder(s);
    } else {
      NextRecordInOrder(s, s.mig.todo[0].skipped);
    }
  }

  lemma StepKeepsInvariant(s: State, a: Action)
    requires Invariant(s) && s.Enabled(a)
    ensures Invariant(s.Step(a))
  {
    if a.ListFiles? || a.QueryDb? || a.RemoveFile? {
      SweepStepInOrder(s, a);
    } else if a.LoadPage? || a.LoadDirPage? || a.StartUpdates? || a.AbandonUpdates? {
      LoadInOrder(s, a);
    } else if a.NoTarget? {
      assert forall m | MoveSafe(s, m) :: MoveSafe(s.Step(a), m);
      NewTaskInOrder(s, s.sweeps, s.Step(a).mig);
    } else if a.UpdateRows? {
      SafeUpdateInOrder(s);
    } else if a.TouchFile? {
      TouchInOrder(s);
    } else if a.CopyFindsNothing? {
      SameRecordInOrder(s, NotFound(s.mig.todo, s.mig.copied));
    } else if a.UnlinkTouched? {
      UnlinkInOrder(s, a.done);
    } else if a.FetchFile? {
      FetchInOrder(s);
    } else {
      OutcomeInOrder(s, a);
    }
  }

  lemma {:induction false} RunKeepsInvariant(s: State, actions: seq<Action>)
    requires Invariant(s) && s.Runs(actions)
    ensures Invariant(s.Run(actions))
    decreases actions
  {
    if actions != [] {
      StepKeepsInvariant(s, actions[0]);
      RunKeepsInvariant(s.Step(actions[0]), actions[1..]);
    }
  }

  // ---------- Exactly when nothing can be lost ----------

  /** Neither a sweep nor the migration has begun. */
  ghost predicate AtRest(s: State) {
    s.sweeps == map[] && s.mig.Idle? && RowsWellFormed(s.rows) && NothingLost(s)
  }

  ghost predicate NeverLoses(s: State) {
    forall actions | s.Runs(actions) :: NothingLost(s.Run(actions))
  }

  lemma {:induction false} RunSnoc(s: State, actions: seq<Action>, a: Action)
    requires s.Runs(actions) && s.Run(actions).Enabled(a)
    ensures s.Runs(actions + [a]) && s.Run(actions + [a]) == s.Run(actions).Step(a)
    decreases actions
  {
    if actions == [] {
      assert [a][1..] == [];
    } else {
      assert (actions + [a])[1..] == actions[1..] + [a];
      RunSnoc(s.Step(actions[0]), actions[1..], a);
    }
  }

  lemma LostNow(s: State)
    requires !NothingLost(s)
    ensures !NeverLoses(s)
  {
    assert s.Runs([]);
  }

  /** What can be lost after a step can be lost before it. */
  lemma LostAfter(s: State, a: Action)
    requires s.Enabled(a) && !NeverLoses(s.Step(a))
    ensures !NeverLoses(s)
  {
    var actions :| s.Step(a).Runs(actions) && !NothingLost(s.Step(a).Run(actions));
    assert ([a] + actions)[1..] == actions;
    assert s.Runs([a] + actions);
  }

  /** Handling the skipped row a when its own file is missing takes away the file at its target. */
  lemma UnlinkLoses(s: State, a: Row, j: RowId)
    requires s.mig.Idle? && a in s.rows.Values && !a.isDir && IsLegacy(a.storagePath) && a.storagePath !in s.files
    requires j in s.rows && Needed(s.rows[j]) && Target(a.storagePath) == Some(s.rows[j].storagePath)
    requires a.storagePath != s.rows[j].storagePath
    ensures !NeverLoses(s)
  {
    var loaded := s.Step(LoadPage([a]));
    var touched := loaded.Step(TouchFile);
    var missed := touched.Step(CopyFindsNothing);
    LostNow(missed.Step(UnlinkTouched(true)));
    LostAfter(missed, UnlinkTouched(true));
    LostAfter(touched, CopyFindsNothing);
    LostAfter(loaded, TouchFile);
    LostAfter(s, LoadPage([a]));
  }

  /** At the end of a page, a push that repoints the needed row j to a path without a file costs it its file. */
  lemma UpdateLoses(s: State, m: Move, rest: seq<Move>, j: RowId)
    requires s.mig == Copying([], [m] + rest) && m.nonLegacyPath !in s.files
    requires j in s.rows && Needed(s.rows[j]) && s.rows[j].storagePath == m.legacyPath
    ensures !NeverLoses(s)
  {
    var updating := s.Step(StartUpdates);
    assert updating.mig.moves[0] == m;
    var updated := updating.Step(UpdateRows);
    assert updated.rows[j].storagePath == m.nonLegacyPath;
    LostNow(updated);
    LostAfter(updating, UpdateRows);
    LostAfter(s, StartUpdates);
  }

  /** The page holds the skipped row a and the needed row j at the same legacy path, and both copies fail. */
  lemma IgnoredFailureLoses(s: State, a: Row, j: RowId)
    requires s.mig.Idle? && a in s.rows.Values && j in s.rows && Endangers(s, a, s.rows[j]) && a.storagePath in s.files
    ensures !NeverLoses(s)
  {
    var b := s.rows[j];
    var page := [a, b];
    var loaded := s.Step(LoadPage(page));
    var first := loaded.Step(CopyFails);
    assert page[1..] == [b] && [b][1..] == [] && [] + [MoveOf(a)] == [MoveOf(a)] + [];
    UpdateLoses(first.Step(CopyFails), MoveOf(a), [], j);
    LostAfter(first, CopyFails);
    LostAfter(loaded, CopyFails);
    LostAfter(s, LoadPage(page));
  }

  /**
   * The page holds the needed row j and then the skipped row a, which go to one target: j's file is copied there,
   * and then the fallback for a, whose own file is missing, takes it away again before j's row is updated.
   */
  lemma FallbackLoses(s: State, a: Row, j: RowId)
    requires s.mig.Idle? && a in s.rows.Values && j in s.rows && NothingLost(s)
    requires Endangers(s, a, s.rows[j]) && a.storagePath !in s.files && IsLegacy(s.rows[j].storagePath)
    requires Target(s.rows[j].storagePath) == Target(a.storagePath)
    ensures !NeverLoses(s)
  {
    var b := s.rows[j];
    var page := [b, a];
    var loaded := s.Step(LoadPage(page));
    var touched := loaded.Step(TouchFile);
    assert page[1..] == [a] && [] + [MoveOf(b)] == [MoveOf(b)];
    TargetIsNotLegacy(a.storagePath);
    FallBackOnLast(touched.Step(CopyFile), a, MoveOf(b), j);
    LostAfter(touched, CopyFile);
    LostAfter(loaded, TouchFile);
    LostAfter(s, LoadPage(page));
  }

  /** The last record of the page is skipped and has no file: its target is unlinked and the fetch fails. */
  lemma FallBackOnLast(s: State, a: Row, pushed: Move, j: RowId)
    requires s.mig == Copying([a], [pushed]) && a.skipped && a.storagePath !in s.files
    requires Target(a.storagePath) == Some(pushed.nonLegacyPath) && a.storagePath != pushed.nonLegacyPath
    requires j in s.rows && Needed(s.rows[j]) && s.rows[j].storagePath == pushed.legacyPath
    ensures !NeverLoses(s)
  {
    var touched := s.Step(TouchFile);
    var missed := touched.Step(CopyFindsNothing);
    var unlinked := missed.Step(UnlinkTouched(true));
    assert [a][1..] == [];
    UpdateLoses(unlinked.Step(FetchFails), pushed, [MoveOf(a)], j);
    LostAfter(unlinked, FetchFails);
    LostAfter(missed, UnlinkTouched(true));
    LostAfter(touched, CopyFindsNothing);
    LostAfter(s, TouchFile);
  }

  lemma EndangeredIsLost(s: State, i: RowId, j: RowId)
    requires AtRest(s) && i in s.rows && j in s.rows && Endangers(s, s.rows[i], s.rows[j])
    ensures !NeverLoses(s)
  {
    var a, b := s.rows[i], s.rows[j];
    TargetIsNotLegacy(a.storagePath);
    if a.storagePath in s.files {
      IgnoredFailureLoses(s, a, j);
    } else if b.storagePath == Target(a.storagePath).value {
      UnlinkLoses(s, a, j);
    } else {
      FallbackLoses(s, a, j);
    }
  }

  // ---------- Endangered rows exist ----------

  /** A skipped row without a file at the root, and a needed row at the standard place of the same CID. */
  ghost function SkippedBesideNeeded(cid: string): State
    requires ValidCid(cid)
  {
    State({ComputeFilePath(cid)},
          map[0 := Row(0, cid, STORAGE_ROOT + "/" + cid, false, true, "", ""),
              1 := Row(1, cid, ComputeFilePath(cid), false, false, "", "")],
          map[], Idle)
  }

  /** A skipped row and a needed one at the same legacy path, with their file there. */
  ghost function SkippedWithNeeded(cid: string): State
    requires ValidCid(cid)
  {
    var path := STORAGE_ROOT + "/" + cid;
    State({path}, map[0 := Row(0, cid, path, false, true, "", ""), 1 := Row(1, cid, path, false, false, "", "")], map[], Idle)
  }

  /** A file of this CID at the root, whatever its row: where it goes, and that its path names it both times. */
  lemma RootFileMoves(cid: string)
    requires ValidCid(cid)
    ensures var path := STORAGE_ROOT + "/" + cid;
            && path != ComputeFilePath(cid) && IsLegacy(path) && !IsLegacy(ComputeFilePath(cid))
            && Target(path) == Some(ComputeFilePath(cid)) && Leaf(path) == cid == Leaf(ComputeFilePath(cid))
  {
    RootPathIsLegacy(cid);
    TargetOfLegacyFile(cid);
    TargetIsNotLegacy(STORAGE_ROOT + "/" + cid);
  }

  lemma TwoRowsAtRest(files: set<Path>, a: Row, b: Row)
    requires a.fileUUID == 0 && b.fileUUID == 1 && !a.isDir && !b.isDir && PathNamesFile(a) && PathNamesFile(b)
    requires a.skipped && b.storagePath in files
    ensures AtRest(State(files, map[0 := a, 1 := b], map[], Idle))
  {
  }

  lemma SkippedBesideNeededAtRest(cid: string)
    requires ValidCid(cid)
    ensures var s := SkippedBesideNeeded(cid); AtRest(s) && Endangers(s, s.rows[0], s.rows[1])
  {
    RootFileMoves(cid);
    var path, target := STORAGE_ROOT + "/" + cid, ComputeFilePath(cid);
    TwoRowsAtRest({target}, Row(0, cid, path, false, true, "", ""), Row(1, cid, target, false, false, "", ""));
  }

  lemma SkippedWithNeededAtRest(cid: string)
    requires ValidCid(cid)
    ensures var s := SkippedWithNeeded(cid); AtRest(s) && Endangers(s, s.rows[0], s.rows[1])
  {
    RootFileMoves(cid);
    var path := STORAGE_ROOT + "/" + cid;
    TwoRowsAtRest({path}, Row(0, cid, path, false, true, "", ""), Row(1, cid, path, false, false, "", ""));
  }

  /** Both tables are in good order, for any CID, and in each the skipped row can cost the needed one its file. */
  lemma SkippedBesideNeededLoses(cid: string)
    requires ValidCid(cid)
    ensures var s := SkippedBesideNeeded(cid); AtRest(s) && !NoneEndangered(s) && !NeverLoses(s)
  {
    SkippedBesideNeededAtRest(cid);
    EndangeredIsLost(SkippedBesideNeeded(cid), 0, 1);
  }

  lemma SkippedWithNeededLoses(cid: string)
    requires ValidCid(cid)
    ensures var s := SkippedWithNeeded(cid); AtRest(s) && !NoneEndangered(s) && !NeverLoses(s)
  {
    SkippedWithNeededAtRest(cid);
    EndangeredIsLost(SkippedWithNeeded(cid), 0, 1);
  }

  /**
   * Every interleaving of sweeps and migration, whatever fails in it, keeps the file of every needed
   * row exactly when, at the start, no skipped row endangers one.
   */
  lemma NothingLostExactly(s: State)
    requires AtRest(s)
    ensures NeverLoses(s) <==> NoneEndangered(s)
  {
    if NoneEndangered(s) {
      forall actions | s.Runs(actions) ensures NothingLost(s.Run(actions)) {
        RunKeepsInvariant(s, actions);
      }
    } else {
      var i, j :| i in s.rows && j in s.rows && Endangers(s, s.rows[i], s.rows[j]);
      EndangeredIsLost(s, i, j);
    }
  }
}
