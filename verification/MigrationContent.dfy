// What the orphan sweep and the migration of creator-node/src/diskManager.ts do to the content of files: the machine
// of SweepMigration, with what each step leaves at the path that it writes.
module MigrationContent {
  import opened Wrappers
  import opened StoragePaths
  import opened SweepMigration

  /** The written path keeps what it had, has the content of the file it is for, has something else, or is no more. */
  datatype Left = AsItWas | Right | Wrong | Gone

  datatype Event = Event(action: Action, left: Left)

  function FilesAfter(files: set<Path>, written: Option<Path>, left: Left): set<Path> {
    if written.None? || left.AsItWas? then files
    else if left.Gone? then files - {written.value}
    else files + {written.value}
  }

  function DamagedAfter(damaged: set<Path>, written: Option<Path>, left: Left): set<Path> {
    if written.None? || left.AsItWas? then damaged
    else if left.Wrong? then damaged + {written.value}
    else damaged - {written.value}
  }

  /** damaged are the paths whose file is not what its row says. */
  datatype Disk = Disk(s: State, damaged: set<Path>)
  {
    predicate Intact(p: Path) { p in s.files && p !in damaged }

    function Record(): Row
      requires s.AtRecord()
    {
      s.mig.todo[0]
    }

    function Written(a: Action): Option<Path>
      requires s.Enabled(a)
    {
      match a
      case RemoveFile(_, p) => Some(p)
      case TouchFile => Target(Record().storagePath)
      case CopyFile => Target(Record().storagePath)
      case CopyFails => Target(Record().storagePath)
      case UnlinkTouched(_) => Target(Record().storagePath)
      case FetchFile => FetchPath(Record())
      case FetchFails => FetchPath(Record())
      case FetchRefused => FetchPath(Record())
      case _ => None
    }

    predicate MayLeave(a: Action, left: Left)
      requires s.Enabled(a)
    {
      match a
      case RemoveFile(_, _) => left.Gone?
      // _touch opens a file for writing, and so empties it, when it cannot set its times.
      case TouchFile => left.Wrong? || (left.AsItWas? && Written(a).value in s.files)
      case CopyFile => left == if Record().storagePath in damaged then Wrong else Right
      // fs.copyFile may fail before, in and after the copying, and may then remove what it has written.
      case CopyFails =>
        || left.AsItWas? || left.Wrong?
        || (s.mig.Touched? && (left.Gone? || (left.Right? && Intact(Record().storagePath))))
      case UnlinkTouched(done) => left == if done then Gone else AsItWas
      // A file that is there is taken as it is; what is fetched is verified, but a failed fetch may leave a part.
      case FetchFile => left == if Written(a).value in s.files then AsItWas else Right
      case FetchFails => left.AsItWas? || (left.Wrong? && Written(a).Some? && Written(a).value !in s.files)
      case FetchRefused => left.AsItWas? || (left.Wrong? && Written(a).Some? && Written(a).value !in s.files)
      case _ => left.AsItWas?
    }

    /** A page lists a row once. */
    ghost predicate Enabled(e: Event) {
      && s.Enabled(e.action) && MayLeave(e.action, e.left)
      && (e.action.LoadPage? ==> Distinct(e.action.records))
    }

    ghost function Step(e: Event): Disk
      requires Enabled(e)
    {
      var p := Written(e.action);
      Disk(s.Step(e.action).(files := FilesAfter(s.files, p, e.left)), DamagedAfter(damaged, p, e.left))
    }

    ghost predicate Runs(events: seq<Event>)
      decreases events
    {
      events == [] || (Enabled(events[0]) && Step(events[0]).Runs(events[1..]))
    }

    ghost function Run(events: seq<Event>): Disk
      requires Runs(events)
      decreases events
    {
      if events == [] then this else Step(events[0]).Run(events[1..])
    }
  }

  /** Every needed row has its file at its storagePath, with the right content. */
  ghost predicate Kept(d: Disk) {
    forall id | id in d.s.rows && Needed(d.s.rows[id]) :: d.Intact(d.s.rows[id].storagePath)
  }

  ghost predicate AlwaysKept(d: Disk) {
    forall events | d.Runs(events) :: Kept(d.Run(events))
  }

  /** Handling the legacy row a writes where the needed row b has its file, or where b's file goes as well. */
  ghost predicate Rival(a: Row, b: Row) {
    && !a.isDir && IsLegacy(a.storagePath) && Needed(b) && Target(a.storagePath).Some?
    && (Target(a.storagePath) == Some(b.storagePath) ||
        (IsLegacy(b.storagePath) && Target(b.storagePath) == Target(a.storagePath)))
  }

  ghost predicate NoRivals(rows: Rows) {
    forall i, j | i in rows && j in rows && i != j :: !Rival(rows[i], rows[j])
  }

  /** Each step of the machine is one here: the failures that it leaves out are added to those it has. */
  lemma MachineStepIsPossible(d: Disk, a: Action) returns (left: Left)
    requires d.s.Enabled(a) && (a.LoadPage? ==> Distinct(a.records))
    ensures d.Enabled(Event(a, left)) && d.Step(Event(a, left)).s == d.s.Step(a)
  {
    match a
    case RemoveFile(_, _) => left := Gone;
    case TouchFile =>
      left := if d.Written(a).value in d.s.files then AsItWas else Wrong;
      assert left.AsItWas? ==> d.s.files + {d.Written(a).value} == d.s.files;
    case CopyFile => left := if d.Record().storagePath in d.damaged then Wrong else Right;
    case UnlinkTouched(done) => left := if done then Gone else AsItWas;
    case FetchFile =>
      left := if d.Written(a).value in d.s.files then AsItWas else Right;
      assert left.AsItWas? ==> d.s.files + {d.Written(a).value} == d.s.files;
    case _ => left := AsItWas;
  }

  /** The machine's failures are not all: a copy that fails may leave anything once its target has been touched, */
  lemma FailedCopyLeaves(d: Disk, left: Left)
    requires d.s.Enabled(CopyFails)
    ensures d.MayLeave(CopyFails, left) <==>
              if d.s.mig.Touched? then left == Right ==> d.Record().storagePath in d.s.files - d.damaged
              else left in {AsItWas, Wrong}
  {
  }

  /** and a touch, after which the target is there, may have emptied it. */
  lemma TouchLeaves(d: Disk, left: Left)
    requires d.s.Enabled(TouchFile)
    ensures var target := Target(d.Record().storagePath).value;
            && (d.Enabled(Event(TouchFile, left)) ==> target in d.Step(Event(TouchFile, left)).s.files)
            && (d.Enabled(Event(TouchFile, Wrong)) && target in d.Step(Event(TouchFile, Wrong)).damaged)
            && (d.Enabled(Event(TouchFile, AsItWas)) <==> target in d.s.files)
  {
  }

  /** A skipped row that endangers a needed one is a rival of it, so no presence is lost where no content is. */
  lemma NoRivalsNoneEndangered(s: State)
    requires NoRivals(s.rows)
    ensures NoneEndangered(s)
  {
    forall i, j | i in s.rows && j in s.rows ensures !Endangers(s, s.rows[i], s.rows[j]) {
      assert i != j ==> !Rival(s.rows[i], s.rows[j]);
    }
  }

  // ---------- The invariant ----------

  function PendingMoves(mig: Migration): seq<Move> {
    match mig
    case Idle => []
    case Updating(moves) => moves
    case _ => mig.copied
  }

  function PendingRecords(mig: Migration): seq<Row> { if mig.Idle? || mig.Updating? then [] else mig.todo }

  /** A pending update repoints needed rows only to a file with the right content. */
  ghost predicate MoveKept(d: Disk, m: Move) {
    && IsLegacy(m.legacyPath) && InFilesDirectory(m.nonLegacyPath)
    && forall id | id in d.s.rows && !d.s.rows[id].isDir && d.s.rows[id].storagePath == m.legacyPath ::
         && Target(m.legacyPath) == Some(m.nonLegacyPath)
         && (Needed(d.s.rows[id]) ==> d.Intact(m.nonLegacyPath))
  }

  ghost predicate NoneDealtWith(todo: seq<Row>, moves: seq<Move>) {
    forall r, m | r in todo && Needed(r) && m in moves :: r.storagePath != m.legacyPath
  }

  /** The records to come are legacy rows, each once, and no needed one has been dealt with. */
  ghost predicate RecordsInOrder(rows: Rows, todo: seq<Row>, moves: seq<Move>) {
    && Distinct(todo) && NoneDealtWith(todo, moves)
    && forall r | r in todo :: r in rows.Values && !r.isDir && IsLegacy(r.storagePath)
  }

  /** Where the copy found no file, it was for a skipped row. */
  ghost predicate MigrationInOrder(s: State) {
    && RecordsInOrder(s.rows, PendingRecords(s.mig), PendingMoves(s.mig))
    && (s.mig.NotFound? || s.mig.Unlinked? || s.mig.Fetched? ==> s.mig.todo != [] && s.mig.todo[0].skipped)
  }

  ghost predicate InOrder(d: Disk) {
    && RowsWellFormed(d.s.rows) && NoRivals(d.s.rows) && Kept(d) && SweepsHarmless(d.s)
    && MigrationInOrder(d.s) && forall m | m in PendingMoves(d.s.mig) :: MoveKept(d, m)
  }

  /** No needed row has its file here, now or after a pending move. */
  ghost predicate Free(s: State, q: Path) {
    forall id | id in s.rows && Needed(s.rows[id]) ::
      && s.rows[id].storagePath != q
      && forall m | m in PendingMoves(s.mig) && m.legacyPath == s.rows[id].storagePath :: m.nonLegacyPath != q
  }

  /** What happens at a path that no needed row uses, or what leaves it right, is harmless. */
  lemma OnePathChanges(d: Disk, written: Option<Path>, left: Left)
    requires InOrder(d)
    requires written.Some? && (left.Wrong? || left.Gone?) ==> Free(d.s, written.value)
    ensures InOrder(Disk(d.s.(files := FilesAfter(d.s.files, written, left)), DamagedAfter(d.damaged, written, left)))
  {
    var after := Disk(d.s.(files := FilesAfter(d.s.files, written, left)), DamagedAfter(d.damaged, written, left));
    forall m | m in PendingMoves(d.s.mig) ensures MoveKept(after, m) {
      assert MoveKept(d, m);
    }
  }

  /** Where the record goes, no needed row has its file: not another row, nor the record's, which is still to move. */
  lemma TargetIsFree(d: Disk)
    requires InOrder(d) && d.s.AtRecord()
    ensures Free(d.s, Target(d.Record().storagePath).value)
  {
    var r := d.Record();
    var t := Target(r.storagePath).value;
    assert r in PendingRecords(d.s.mig);
    TargetIsNotLegacy(r.storagePath);
    forall id | id in d.s.rows && Needed(d.s.rows[id])
      ensures d.s.rows[id].storagePath != t
      ensures forall m | m in PendingMoves(d.s.mig) && m.legacyPath == d.s.rows[id].storagePath :: m.nonLegacyPath != t
    {
      assert id != r.fileUUID ==> !Rival(d.s.rows[r.fileUUID], d.s.rows[id]);
      assert forall m | m in PendingMoves(d.s.mig) :: MoveKept(d, m);
    }
  }

  lemma SweptIsFree(d: Disk, q: Path)
    requires InOrder(d) && Leaf(q) !in Multihashes(d.s.rows)
    ensures Free(d.s, q)
  {
    SweptFileIsUnused(d.s, q);
    assert forall m | m in PendingMoves(d.s.mig) :: MoveKept(d, m);
  }

  lemma MissingIsFree(d: Disk, q: Path)
    requires InOrder(d) && q !in d.s.files
    ensures Free(d.s, q)
  {
    assert forall m | m in PendingMoves(d.s.mig) :: MoveKept(d, m);
  }

  /** A step damages or removes a file only where no needed row has one. */
  lemma WrittenIsFree(d: Disk, e: Event)
    requires InOrder(d) && d.Enabled(e) && d.Written(e.action).Some? && (e.left.Wrong? || e.left.Gone?)
    ensures Free(d.s, d.Written(e.action).value)
  {
    if e.action.RemoveFile? {
      SweptIsFree(d, e.action.p);
    } else if e.action.FetchFails? || e.action.FetchRefused? {
      MissingIsFree(d, d.Written(e.action).value);
    } else {
      TargetIsFree(d);
    }
  }

  /** The step, as far as it concerns files. */
  ghost function FilesChanged(d: Disk, e: Event): Disk
    requires d.Enabled(e)
  {
    var p := d.Written(e.action);
    Disk(d.s.(files := FilesAfter(d.s.files, p, e.left)), DamagedAfter(d.damaged, p, e.left))
  }

  lemma FilesStayInOrder(d: Disk, e: Event)
    requires InOrder(d) && d.Enabled(e)
    ensures InOrder(FilesChanged(d, e))
  {
    if d.Written(e.action).Some? && (e.left.Wrong? || e.left.Gone?) {
      WrittenIsFree(d, e);
    }
    OnePathChanges(d, d.Written(e.action), e.left);
  }

  // ---------- The rest of a step ----------

  lemma NewSweeps(d: Disk, sweeps: map<SweepId, Sweep>)
    requires InOrder(d) && SweepsHarmless(d.s.(sweeps := sweeps))
    ensures InOrder(d.(s := d.s.(sweeps := sweeps)))
  {
    forall m | m in PendingMoves(d.s.mig) ensures MoveKept(d.(s := d.s.(sweeps := sweeps)), m) {
      assert MoveKept(d, m);
    }
  }

  lemma NewTask(d: Disk, mig: Migration)
    requires InOrder(d) && MigrationInOrder(d.s.(mig := mig)) && forall m | m in PendingMoves(mig) :: MoveKept(d, m)
    ensures InOrder(d.(s := d.s.(mig := mig)))
  {
    forall m | m in PendingMoves(mig) ensures MoveKept(d.(s := d.s.(mig := mig)), m) {
      assert MoveKept(d, m);
    }
  }

  /** A needed record is the only needed row at its path. */
  lemma OnlyRecordIsThere(d: Disk, id: RowId)
    requires InOrder(d) && d.s.AtRecord() && id in d.s.rows && Needed(d.s.rows[id])
    requires d.s.rows[id].storagePath == d.Record().storagePath
    ensures d.s.rows[id] == d.Record()
  {
    var r := d.Record();
    assert r in PendingRecords(d.s.mig);
    assert id != r.fileUUID ==> !Rival(d.s.rows[r.fileUUID], d.s.rows[id]);
  }

  lemma PushedIsKept(d: Disk)
    requires InOrder(d) && d.s.AtRecord() && (d.Record().skipped || d.Intact(Target(d.Record().storagePath).value))
    ensures MoveKept(d, MoveOf(d.Record()))
  {
    var r := d.Record();
    assert r in PendingRecords(d.s.mig);
    TargetIsNotLegacy(r.storagePath);
    forall id | id in d.s.rows && Needed(d.s.rows[id]) && d.s.rows[id].storagePath == r.storagePath
      ensures d.s.rows[id] == r
    {
      OnlyRecordIsThere(d, id);
    }
  }

  /** The rest of the page is part of the page, and the record is not in it. */
  lemma RestOfPage(todo: seq<Row>)
    requires todo != [] && Distinct(todo)
    ensures Distinct(todo[1..]) && forall x | x in todo[1..] :: x in todo && x.fileUUID != todo[0].fileUUID
  {
    assert forall k | 0 <= k < |todo[1..]| :: todo[1..][k] == todo[k + 1];
  }

  lemma OthersAreElsewhere(d: Disk, x: Row)
    requires InOrder(d) && d.s.AtRecord() && x in PendingRecords(d.s.mig) && Needed(x)
    requires x.fileUUID != d.Record().fileUUID
    ensures x.storagePath != d.Record().storagePath
  {
    if x.storagePath == d.Record().storagePath {
      OnlyRecordIsThere(d, x.fileUUID);
    }
  }

  lemma RestIsElsewhere(d: Disk, rest: seq<Row>)
    requires InOrder(d) && d.s.AtRecord()
    requires forall x | x in rest :: x in PendingRecords(d.s.mig) && x.fileUUID != d.Record().fileUUID
    ensures forall x | x in rest && Needed(x) :: x.storagePath != d.Record().storagePath
  {
    forall x | x in rest && Needed(x) ensures x.storagePath != d.Record().storagePath {
      OthersAreElsewhere(d, x);
    }
  }

  lemma RestInOrder(rows: Rows, todo: seq<Row>, copied: seq<Move>, m: Move)
    requires todo != [] && RecordsInOrder(rows, todo, copied)
    requires forall x | x in todo[1..] && Needed(x) :: x.storagePath != m.legacyPath
    ensures RecordsInOrder(rows, todo[1..], copied) && RecordsInOrder(rows, todo[1..], copied + [m])
  {
    RestOfPage(todo);
  }

  lemma RestStaysInOrder(d: Disk)
    requires InOrder(d) && d.s.AtRecord()
    ensures RecordsInOrder(d.s.rows, d.s.mig.todo[1..], d.s.mig.copied)
    ensures RecordsInOrder(d.s.rows, d.s.mig.todo[1..], d.s.mig.copied + [MoveOf(d.Record())])
  {
    RestOfPage(d.s.mig.todo);
    RestIsElsewhere(d, d.s.mig.todo[1..]);
    RestInOrder(d.s.rows, d.s.mig.todo, d.s.mig.copied, MoveOf(d.Record()));
  }

  lemma NextRecordKept(d: Disk, todo: seq<Row>, copied: seq<Move>)
    requires InOrder(d) && RecordsInOrder(d.s.rows, todo, copied) && forall m | m in copied :: MoveKept(d, m)
    ensures InOrder(d.(s := d.s.(mig := Copying(todo, copied))))
  {
    NewTask(d, Copying(todo, copied));
  }

  lemma RecordDone(d: Disk, push: bool)
    requires InOrder(d) && d.s.AtRecord()
    requires push ==> d.Record().skipped || d.Intact(Target(d.Record().storagePath).value)
    ensures InOrder(d.(s := d.s.(mig := NextRecord(d.s.mig.todo, d.s.mig.copied, push))))
  {
    RestStaysInOrder(d);
    if push {
      PushedIsKept(d);
      NextRecordKept(d, d.s.mig.todo[1..], d.s.mig.copied + [MoveOf(d.Record())]);
    } else {
      NextRecordKept(d, d.s.mig.todo[1..], d.s.mig.copied);
    }
  }

  /** The file of a needed record is there. */
  lemma MissingRecordIsSkipped(d: Disk)
    requires InOrder(d) && d.s.AtRecord() && !d.Intact(d.Record().storagePath)
    ensures d.Record().skipped
  {
    assert d.Record() in PendingRecords(d.s.mig);
  }

  lemma DirPageInOrder(d: Disk, records: seq<Row>)
    requires InOrder(d) && d.s.Enabled(LoadDirPage(records))
    ensures InOrder(d.(s := d.s.Step(LoadDirPage(records))))
  {
    var mig := d.s.Step(LoadDirPage(records)).mig;
    forall m | m in mig.moves ensures MoveKept(d, m) {
      var k :| 0 <= k < |records| && m == mig.moves[k];
      assert records[k] in records;
      DirMoveIsKept(d, records[k]);
    }
    NewTask(d, mig);
  }

  /** No needed row is where a directory is. */
  lemma DirMoveIsKept(d: Disk, r: Row)
    requires InOrder(d) && r in d.s.rows.Values && r.isDir && IsLegacy(r.storagePath) && ValidCid(r.multihash)
    ensures MoveKept(d, Move(r.storagePath, ComputeFilePath(r.multihash)))
  {
    var i :| i in d.s.rows && d.s.rows[i] == r;
  }

  lemma UpdateInOrder(d: Disk)
    requires InOrder(d) && d.s.Enabled(UpdateRows)
    ensures InOrder(d.(s := d.s.Step(UpdateRows)))
  {
    var m := d.s.mig.moves[0];
    var after := d.(s := d.s.Step(UpdateRows));
    assert MoveKept(d, m);
    InFilesDirectoryIsNotLegacy(m.nonLegacyPath);
    RepointKeepsMultihashes(d.s.rows, m);
    RepointKeepsRows(d.s, m);
    RepointAddsNoRival(d, m);
    forall n | n in after.s.mig.moves ensures MoveKept(after, n) {
      assert n in d.s.mig.moves && MoveKept(d, n);
    }
  }

  lemma RepointAddsNoRival(d: Disk, m: Move)
    requires NoRivals(d.s.rows) && MoveKept(d, m) && !IsLegacy(m.nonLegacyPath)
    ensures NoRivals(Repoint(d.s.rows, m))
  {
    var after := Repoint(d.s.rows, m);
    forall i, j | i in after && j in after && i != j ensures !Rival(after[i], after[j]) {
      assert !Rival(d.s.rows[i], d.s.rows[j]);
    }
  }

  lemma FetchedRowStays(d: Disk)
    requires InOrder(d) && d.s.Enabled(UpdateFetchedRow)
    ensures d.s.Step(UpdateFetchedRow).rows == d.s.rows
  {
    assert d.Record() in PendingRecords(d.s.mig);
    SkippedStays(d.s.rows, d.Record(), FetchPath(d.Record()).value);
  }

  /** Going on with the same record. */
  lemma SameRecord(d: Disk, mig: Migration)
    requires InOrder(d) && d.s.AtRecord() && !mig.Idle? && !mig.Updating?
    requires mig.todo == d.s.mig.todo && mig.copied == d.s.mig.copied
    requires mig.NotFound? || mig.Unlinked? || mig.Fetched? ==> d.Record().skipped
    ensures InOrder(d.(s := d.s.(mig := mig)))
  {
    assert PendingMoves(mig) == PendingMoves(d.s.mig);
    NewTask(d, mig);
  }

  /** The steps within a record. */
  lemma RecordStepInOrder(d: Disk, e: Event)
    requires InOrder(d) && d.Enabled(e)
    requires e.action.TouchFile? || e.action.CopyFindsNothing? || e.action.UnlinkTouched? || e.action.FetchFile?
    ensures InOrder(d.Step(e))
  {
    var changed := FilesChanged(d, e);
    FilesStayInOrder(d, e);
    if e.action.CopyFindsNothing? {
      MissingRecordIsSkipped(d);
    }
    SameRecord(changed, d.s.Step(e.action).mig);
  }

  /** The steps that settle a record: of these only a copy is pushed whoever's it is. */
  predicate Settles(a: Action) { a.CopyFile? || a.CopyFails? || a.FetchRefused? || a.FetchFails? }

  lemma OutcomeInParts(d: Disk, e: Event)
    requires d.Enabled(e) && Settles(e.action)
    ensures d.s.AtRecord()
    ensures var changed := FilesChanged(d, e);
            && changed.s.mig == d.s.mig
            && d.Step(e) == changed.(s := changed.s.(mig :=
                 NextRecord(d.s.mig.todo, d.s.mig.copied, e.action.CopyFile? || d.Record().skipped)))
  {
  }

  lemma OutcomeInOrder(d: Disk, e: Event)
    requires InOrder(d) && d.Enabled(e) && Settles(e.action)
    ensures InOrder(d.Step(e))
  {
    OutcomeInParts(d, e);
    FilesStayInOrder(d, e);
    if e.action.CopyFile? && !d.Record().skipped {
      CopiedIsIntact(d, e);
    }
    RecordDone(FilesChanged(d, e), e.action.CopyFile? || d.Record().skipped);
  }

  lemma CopiedIsIntact(d: Disk, e: Event)
    requires InOrder(d) && d.Enabled(e) && e.action.CopyFile? && !d.Record().skipped
    ensures FilesChanged(d, e).Intact(Target(d.Record().storagePath).value)
  {
    if !d.Intact(d.Record().storagePath) {
      MissingRecordIsSkipped(d);
    }
  }

  lemma StepKeepsOrder(d: Disk, e: Event)
    requires InOrder(d) && d.Enabled(e)
    ensures InOrder(d.Step(e))
  {
    var a := e.action;
    if a.ListFiles? || a.QueryDb? {
      NewSweeps(d, d.s.Step(a).sweeps);
    } else if a.RemoveFile? {
      FilesStayInOrder(d, e);
    } else if a.LoadDirPage? {
      DirPageInOrder(d, a.records);
    } else if a.LoadPage? || a.StartUpdates? || a.AbandonUpdates? {
      NewTask(d, d.s.Step(a).mig);
    } else if a.UpdateRows? {
      UpdateInOrder(d);
    } else if a.NoTarget? {
      NoTargetInOrder(d);
    } else if a.UpdateFetchedRow? {
      FetchedRowStays(d);
      RecordDone(d, true);
    } else if Settles(a) {
      OutcomeInOrder(d, e);
    } else {
      RecordStepInOrder(d, e);
    }
  }

  lemma NoTargetInOrder(d: Disk)
    requires InOrder(d) && d.s.Enabled(NoTarget)
    ensures InOrder(d.(s := d.s.Step(NoTarget)))
  {
    RestOfPage(d.s.mig.todo);
    NextRecordKept(d, d.s.mig.todo[1..], d.s.mig.copied);
  }

  lemma {:induction false} RunKeepsOrder(d: Disk, events: seq<Event>)
    requires InOrder(d) && d.Runs(events)
    ensures InOrder(d.Run(events))
    decreases events
  {
    if events != [] {
      StepKeepsOrder(d, events[0]);
      RunKeepsOrder(d.Step(events[0]), events[1..]);
    }
  }

  // ---------- Rivals cost content ----------

  lemma SpoiledNow(d: Disk)
    requires !Kept(d)
    ensures !AlwaysKept(d)
  {
    assert d.Runs([]);
  }

  lemma SpoiledAfter(d: Disk, e: Event)
    requires d.Enabled(e) && !AlwaysKept(d.Step(e))
    ensures !AlwaysKept(d)
  {
    var events :| d.Step(e).Runs(events) && !Kept(d.Step(e).Run(events));
    assert ([e] + events)[1..] == events;
    assert d.Runs([e] + events);
  }

  /** The copy of a breaks off on the path that the needed row j uses. */
  lemma OverwritingSpoils(d: Disk, a: Row, j: RowId)
    requires d.s.mig.Idle? && Kept(d) && a in d.s.rows.Values && j in d.s.rows && Rival(a, d.s.rows[j])
    requires Target(a.storagePath) == Some(d.s.rows[j].storagePath)
    ensures !AlwaysKept(d)
  {
    var load, touch := Event(LoadPage([a]), AsItWas), Event(TouchFile, AsItWas);
    var loaded := d.Step(load);
    assert loaded.s.mig == Copying([a], []);
    FailingCopySpoils(loaded.Step(touch), a, j);
    SpoiledAfter(loaded, touch);
    SpoiledAfter(d, load);
  }

  lemma FailingCopySpoils(d: Disk, a: Row, j: RowId)
    requires d.s.mig == Touched([a], []) && j in d.s.rows && Needed(d.s.rows[j])
    requires Target(a.storagePath) == Some(d.s.rows[j].storagePath)
    ensures !AlwaysKept(d)
  {
    var fail := Event(CopyFails, Wrong);
    SpoiledNow(d.Step(fail));
    SpoiledAfter(d, fail);
  }

  /** The needed row j is copied, then the copy of a to the same target breaks off, and then j's row is updated. */
  lemma SharedTargetSpoils(d: Disk, a: Row, j: RowId)
    requires d.s.mig.Idle? && Kept(d) && a in d.s.rows.Values && j in d.s.rows && Rival(a, d.s.rows[j])
    requires IsLegacy(d.s.rows[j].storagePath) && Target(d.s.rows[j].storagePath) == Target(a.storagePath)
    requires a.fileUUID != d.s.rows[j].fileUUID
    ensures !AlwaysKept(d)
  {
    var b := d.s.rows[j];
    var page := [b, a];
    var load := Event(LoadPage(page), AsItWas);
    var loaded := d.Step(load);
    TargetIsNotLegacy(a.storagePath);
    CopyingFirstSpoils(loaded, b, a, j);
    SpoiledAfter(d, load);
  }

  lemma CopyingFirstSpoils(d: Disk, b: Row, a: Row, j: RowId)
    requires d.s.mig == Copying([b, a], []) && j in d.s.rows && d.s.rows[j] == b && Needed(b)
    requires Target(b.storagePath).Some? && Target(a.storagePath) == Target(b.storagePath)
    requires d.Intact(b.storagePath) && b.storagePath != Target(b.storagePath).value
    ensures !AlwaysKept(d)
  {
    var touch, copy := Event(TouchFile, Wrong), Event(CopyFile, Right);
    var touched := d.Step(touch);
    assert [b, a][1..] == [a] && [] + [MoveOf(b)] == [MoveOf(b)];
    BreakingOffSpoils(touched.Step(copy), a, MoveOf(b), j);
    SpoiledAfter(touched, copy);
    SpoiledAfter(d, touch);
  }

  lemma BreakingOffSpoils(d: Disk, a: Row, pushed: Move, j: RowId)
    requires d.s.mig == Copying([a], [pushed]) && Target(a.storagePath) == Some(pushed.nonLegacyPath)
    requires j in d.s.rows && Needed(d.s.rows[j]) && d.s.rows[j].storagePath == pushed.legacyPath
    ensures !AlwaysKept(d)
  {
    var touch, fail := Event(TouchFile, Wrong), Event(CopyFails, Wrong);
    var touched := d.Step(touch);
    assert [a][1..] == [] && [pushed] == [pushed] + [];
    UpdateSpoils(touched.Step(fail), pushed, if a.skipped then [MoveOf(a)] else [], j);
    SpoiledAfter(touched, fail);
    SpoiledAfter(d, touch);
  }

  lemma UpdateSpoils(d: Disk, m: Move, rest: seq<Move>, j: RowId)
    requires d.s.mig == Copying([], [m] + rest) && !d.Intact(m.nonLegacyPath)
    requires j in d.s.rows && Needed(d.s.rows[j]) && d.s.rows[j].storagePath == m.legacyPath
    ensures !AlwaysKept(d)
  {
    var start, update := Event(StartUpdates, AsItWas), Event(UpdateRows, AsItWas);
    var updating := d.Step(start);
    assert updating.s.mig.moves[0] == m;
    var updated := updating.Step(update);
    assert updated.s.rows[j].storagePath == m.nonLegacyPath;
    SpoiledNow(updated);
    SpoiledAfter(updating, update);
    SpoiledAfter(d, start);
  }

  /**
   * Every interleaving of sweeps and migration, however copies and fetches fail, keeps the content of every needed
   * row's file exactly when, at the start, no legacy row is to be copied to where another needed row has its file
   * or is to get it.
   */
  lemma ContentKeptExactly(d: Disk)
    requires AtRest(d.s) && Kept(d)
    ensures AlwaysKept(d) <==> NoRivals(d.s.rows)
  {
    if NoRivals(d.s.rows) {
      forall events | d.Runs(events) ensures Kept(d.Run(events)) {
        RunKeepsOrder(d, events);
      }
    } else {
      var i, j :| i in d.s.rows && j in d.s.rows && i != j && Rival(d.s.rows[i], d.s.rows[j]);
      if Target(d.s.rows[i].storagePath) == Some(d.s.rows[j].storagePath) {
        OverwritingSpoils(d, d.s.rows[i], j);
      } else {
        SharedTargetSpoils(d, d.s.rows[i], j);
      }
    }
  }
}
