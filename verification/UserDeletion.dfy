// deleteAllCNodeUserDataFromDB of creator-node/src/dbManager.js over the foreign keys that the migrations
// in creator-node/sequelize/migrations leave in place.
module UserDeletion {
  import opened Wrappers

  type UserId = nat
  type FileId = nat
  type Wallet = string

  /** A row of AudiusUsers or Tracks. */
  datatype DataRow = DataRow(user: UserId, clock: nat, data: string)

  datatype FileRow = FileRow(fileUUID: FileId, user: UserId, clock: nat, trackBlockchainId: Option<nat>)

  datatype ClockRecord = ClockRecord(user: UserId, clock: nat)

  datatype SessionToken = SessionToken(id: nat, user: UserId)

  /** metadataFileUUID and playlistImageFileUUID are the files a playlist refers to. */
  datatype Playlist = Playlist(user: UserId, clock: nat, metadataFileUUID: FileId, playlistImageFileUUID: Option<FileId>)
  {
    function Files(): set<FileId> {
      {metadataFileUUID} + if playlistImageFileUUID.Some? then {playlistImageFileUUID.value} else {}
    }
  }

  datatype Database = Database(
    cnodeUsers: map<UserId, Wallet>,
    audiusUsers: set<DataRow>,
    tracks: set<DataRow>,
    files: set<FileRow>,
    clockRecords: set<ClockRecord>,
    sessionTokens: set<SessionToken>,
    playlists: set<Playlist>)

  // ---------- Foreign keys, all of them ON DELETE RESTRICT ----------

  /** (cnodeUserUUID, clock) references ClockRecords, which references CNodeUsers. */
  predicate DataRowsHold(db: Database) {
    && (forall r | r in db.audiusUsers :: r.user in db.cnodeUsers && ClockRecord(r.user, r.clock) in db.clockRecords)
    && (forall r | r in db.tracks :: r.user in db.cnodeUsers && ClockRecord(r.user, r.clock) in db.clockRecords)
    && (forall f | f in db.files :: f.user in db.cnodeUsers && ClockRecord(f.user, f.clock) in db.clockRecords)
  }

  predicate PlaylistsHold(db: Database) {
    forall p | p in db.playlists :: p.user in db.cnodeUsers && forall id | id in p.Files() :: HasFile(db, id)
  }

  predicate HasFile(db: Database, id: FileId) { exists f :: f in db.files && f.fileUUID == id }

  predicate ReferencesHold(db: Database) {
    && DataRowsHold(db) && PlaylistsHold(db)
    && (forall c | c in db.clockRecords :: c.user in db.cnodeUsers)
    && (forall t | t in db.sessionTokens :: t.user in db.cnodeUsers)
  }

  /** fileUUID is the primary key of Files. */
  ghost predicate FileIdsUnique(db: Database) {
    forall f, g | f in db.files && g in db.files && f.fileUUID == g.fileUUID :: f == g
  }

  /** A row of a user who is not there, a data row without its clock record, a playlist without its file. */
  lemma DanglingRows(db: Database, user: UserId, clock: nat, file: FileId)
    ensures ReferencesHold(db) && user !in db.cnodeUsers ==>
              && (forall r | r in db.audiusUsers + db.tracks :: r.user != user)
              && (forall f | f in db.files :: f.user != user)
              && (forall c | c in db.clockRecords :: c.user != user)
              && (forall t | t in db.sessionTokens :: t.user != user)
              && (forall p | p in db.playlists :: p.user != user)
    ensures ReferencesHold(db) && ClockRecord(user, clock) !in db.clockRecords ==>
              && (forall r | r in db.audiusUsers + db.tracks :: (r.user, r.clock) != (user, clock))
              && (forall f | f in db.files :: (f.user, f.clock) != (user, clock))
    ensures ReferencesHold(db) && (forall f | f in db.files :: f.fileUUID != file) ==>
              forall p | p in db.playlists :: p.metadataFileUUID != file && p.playlistImageFileUUID != Some(file)
  {
    if ReferencesHold(db) && (forall f | f in db.files :: f.fileUUID != file) {
      forall p | p in db.playlists ensures file !in p.Files() {
        assert !HasFile(db, file);
      }
    }
  }

  /** With all of these there, every table can hold rows of the user. */
  lemma ReferencesCanHold(user: UserId, wallet: Wallet, clock: nat, id: FileId, data: string)
    ensures var rows := {DataRow(user, clock, data)};
            var db := Database(map[user := wallet], rows, rows, {FileRow(id, user, clock, None)},
                               {ClockRecord(user, clock)}, {SessionToken(id, user)}, {Playlist(user, clock, id, Some(id))});
            ReferencesHold(db) && FileIdsUnique(db)
  {
    var rows, file := {DataRow(user, clock, data)}, FileRow(id, user, clock, None);
    var db := Database(map[user := wallet], rows, rows, {file}, {ClockRecord(user, clock)}, {SessionToken(id, user)},
                       {Playlist(user, clock, id, Some(id))});
    assert file in db.files && HasFile(db, id);
  }

  // ---------- The deletes, in their order ----------

  datatype Table = AudiusUsers | TrackFiles | Tracks | OtherFiles | ClockRecords | SessionTokens | CNodeUser

  const ORDER: seq<Table> := [AudiusUsers, TrackFiles, Tracks, OtherFiles, ClockRecords, SessionTokens, CNodeUser]

  function Delete(db: Database, user: UserId, table: Table): Database {
    match table
    case AudiusUsers => db.(audiusUsers := set r | r in db.audiusUsers && r.user != user)
    case TrackFiles => db.(files := set f | f in db.files && !(f.user == user && f.trackBlockchainId.Some?))
    case Tracks => db.(tracks := set r | r in db.tracks && r.user != user)
    case OtherFiles => db.(files := set f | f in db.files && f.user != user)
    case ClockRecords => db.(clockRecords := set c | c in db.clockRecords && c.user != user)
    case SessionTokens => db.(sessionTokens := set t | t in db.sessionTokens && t.user != user)
    case CNodeUser => db.(cnodeUsers := db.cnodeUsers - {user})
  }

  function DeleteFirst(db: Database, user: UserId, k: nat): Database
    requires k <= |ORDER|
  {
    if k == 0 then db else Delete(DeleteFirst(db, user, k - 1), user, ORDER[k - 1])
  }

  /** The database with no row of this user in any table but Playlists, which no delete touches. */
  ghost predicate IsWithoutUser(before: Database, after: Database, user: UserId) {
    && after.cnodeUsers == before.cnodeUsers - {user}
    && after.audiusUsers == (set r | r in before.audiusUsers && r.user != user)
    && after.tracks == (set r | r in before.tracks && r.user != user)
    && after.files == (set f | f in before.files && f.user != user)
    && after.clockRecords == (set c | c in before.clockRecords && c.user != user)
    && after.sessionTokens == (set t | t in before.sessionTokens && t.user != user)
    && after.playlists == before.playlists
  }

  /** What the first k deletes leave, table by table. */
  function Remaining(db: Database, user: UserId, k: nat): Database {
    Database(
      if k < 7 then db.cnodeUsers else db.cnodeUsers - {user},
      (set r | r in db.audiusUsers && (k < 1 || r.user != user)),
      (set r | r in db.tracks && (k < 3 || r.user != user)),
      (set f | f in db.files && !DeletedFile(f, user, k)),
      (set c | c in db.clockRecords && (k < 5 || c.user != user)),
      (set t | t in db.sessionTokens && (k < 6 || t.user != user)),
      db.playlists)
  }

  predicate DeletedFile(f: FileRow, user: UserId, k: nat) {
    f.user == user && ((k >= 2 && f.trackBlockchainId.Some?) || k >= 4)
  }

  lemma {:induction false} DeletesLeaveRemaining(db: Database, user: UserId, k: nat)
    requires k <= |ORDER|
    ensures DeleteFirst(db, user, k) == Remaining(db, user, k)
  {
    if k > 0 {
      DeletesLeaveRemaining(db, user, k - 1);
      OneDeleteMore(db, user, k);
    }
  }

  lemma OneDeleteMore(db: Database, user: UserId, k: nat)
    requires 0 < k <= |ORDER|
    ensures Delete(Remaining(db, user, k - 1), user, ORDER[k - 1]) == Remaining(db, user, k)
  {
  }

  /** The k-th delete has to take a file away that a playlist refers to, or the owner of a playlist. */
  predicate Blocked(db: Database, user: UserId, k: nat) {
    exists p :: p in db.playlists && BlocksAt(db, p, user, k)
  }

  predicate BlocksAt(db: Database, p: Playlist, user: UserId, k: nat) {
    (k >= 7 && p.user == user) || exists f :: f in db.files && f.fileUUID in p.Files() && DeletedFile(f, user, k)
  }

  lemma PlaylistsHoldUnlessBlocked(db: Database, user: UserId, k: nat)
    requires ReferencesHold(db) && FileIdsUnique(db)
    ensures PlaylistsHold(Remaining(db, user, k)) <==> !Blocked(db, user, k)
  {
    var left := Remaining(db, user, k);
    forall p, id | p in db.playlists && id in p.Files()
      ensures HasFile(left, id) <==> !exists f :: f in db.files && f.fileUUID == id && DeletedFile(f, user, k)
    {
      assert HasFile(db, id);
      var f :| f in db.files && f.fileUUID == id;
      assert f in left.files <==> !DeletedFile(f, user, k);
    }
    forall p | p in db.playlists
      ensures BlocksAt(db, p, user, k) <==>
                !(p.user in left.cnodeUsers && forall id | id in p.Files() :: HasFile(left, id))
    {
      if exists f :: f in db.files && f.fileUUID in p.Files() && DeletedFile(f, user, k) {
        var f :| f in db.files && f.fileUUID in p.Files() && DeletedFile(f, user, k);
        assert !HasFile(left, f.fileUUID);
      }
    }
  }

  lemma DataRowsKeepHolding(db: Database, user: UserId, k: nat)
    requires DataRowsHold(db)
    ensures DataRowsHold(Remaining(db, user, k))
  {
  }

  /** In this order only playlists can stand in the way: every other reference holds after every delete. */
  lemma ReferencesHoldUnlessBlocked(db: Database, user: UserId, k: nat)
    requires ReferencesHold(db) && FileIdsUnique(db) && k <= |ORDER|
    ensures ReferencesHold(DeleteFirst(db, user, k)) <==> !Blocked(db, user, k)
  {
    DeletesLeaveRemaining(db, user, k);
    DataRowsKeepHolding(db, user, k);
    PlaylistsHoldUnlessBlocked(db, user, k);
    var left := Remaining(db, user, k);
    assert forall c | c in left.clockRecords :: c.user in left.cnodeUsers;
    assert forall t | t in left.sessionTokens :: t.user in left.cnodeUsers;
  }

  lemma BlockedStaysBlocked(db: Database, user: UserId, j: nat, k: nat)
    requires Blocked(db, user, j) && j <= k
    ensures Blocked(db, user, k)
  {
    var p :| p in db.playlists && BlocksAt(db, p, user, j);
    assert BlocksAt(db, p, user, k);
  }

  /** Clock records cannot go before the data rows, nor the user before everything else. */
  lemma OrderMatters(db: Database, user: UserId)
    requires ReferencesHold(db)
    ensures ReferencesHold(Delete(db, user, ClockRecords)) <==>
              && (forall r | r in db.audiusUsers + db.tracks :: r.user != user)
              && (forall f | f in db.files :: f.user != user)
    ensures ReferencesHold(Delete(db, user, CNodeUser)) <==>
              && (forall r | r in db.audiusUsers + db.tracks :: r.user != user)
              && (forall f | f in db.files :: f.user != user)
              && (forall p | p in db.playlists :: p.user != user)
              && (forall c | c in db.clockRecords :: c.user != user)
              && (forall t | t in db.sessionTokens :: t.user != user)
  {
    var noClocks, noUser := Delete(db, user, ClockRecords), Delete(db, user, CNodeUser);
    assert noClocks.files == db.files && noUser.files == db.files;
    forall id ensures HasFile(noClocks, id) == HasFile(db, id) && HasFile(noUser, id) == HasFile(db, id) {
    }
    forall r | r in db.audiusUsers + db.tracks ensures ClockRecord(r.user, r.clock) in noClocks.clockRecords <==> r.user != user {
    }
  }

  lemma AllDeletedIsWithoutUser(db: Database, user: UserId)
    ensures IsWithoutUser(db, DeleteFirst(db, user, |ORDER|), user)
  {
    DeletesLeaveRemaining(db, user, |ORDER|);
  }

  // ---------- The transaction ----------

  function FindUser(db: Database, lookupCNodeUserUUID: UserId, lookupWallet: Wallet): (r: Option<UserId>)
    requires forall u, v | u in db.cnodeUsers && v in db.cnodeUsers && db.cnodeUsers[u] == db.cnodeUsers[v] :: u == v
    ensures r.Some? ==> r.value in db.cnodeUsers
  {
    if lookupWallet != "" then
      if exists u :: u in db.cnodeUsers && db.cnodeUsers[u] == lookupWallet then
        var u :| u in db.cnodeUsers && db.cnodeUsers[u] == lookupWallet;
        Some(u)
      else None
    else if lookupCNodeUserUUID in db.cnodeUsers then Some(lookupCNodeUserUUID)
    else None
  }

  /** A playlist is the user's, or refers to a file of theirs by one of its two columns. */
  ghost predicate PlaylistInTheWay(db: Database, user: UserId) {
    exists p :: p in db.playlists && (p.user == user || RefersToFileOf(db, p, user))
  }

  ghost predicate RefersToFileOf(db: Database, p: Playlist, user: UserId) {
    exists f :: f in db.files && f.user == user &&
                (f.fileUUID == p.metadataFileUUID || p.playlistImageFileUUID == Some(f.fileUUID))
  }

  lemma BlockedExactly(db: Database, user: UserId)
    ensures Blocked(db, user, |ORDER|) <==> PlaylistInTheWay(db, user)
  {
    forall p | p in db.playlists
      ensures BlocksAt(db, p, user, |ORDER|) <==> p.user == user || RefersToFileOf(db, p, user)
    {
      assert forall id :: id in p.Files() <==> id == p.metadataFileUUID || p.playlistImageFileUUID == Some(id);
    }
  }

  /** How the deletion of a user who is there ends. */
  ghost predicate Deletes(before: Database, after: Database, user: UserId, failsAt: Option<nat>, error: bool) {
    && (error <==> PlaylistInTheWay(before, user) || (failsAt.Some? && failsAt.value < |ORDER|))
    && (!error ==> IsWithoutUser(before, after, user))
    && (!error ==> forall k | 0 <= k <= |ORDER| :: ReferencesHold(DeleteFirst(before, user, k)))
  }

  class DBManager {
    var db: Database

    /**
     * deleteAllCNodeUserDataFromDB, by wallet if one is given and by UUID otherwise. failsAt is the statement that
     * some other error hits, if one does. Deletion either takes every row of the user outside Playlists and no
     * other row, with all references holding after every single delete, or it restores the database; it is a
     * playlist of the user or one that refers to a file of theirs that stands in its way. A user who is not there
     * is no error.
     */
    method DeleteAllCNodeUserDataFromDB(lookupCNodeUserUUID: UserId, lookupWallet: Wallet, failsAt: Option<nat>)
      returns (error: bool)
      requires ReferencesHold(db) && FileIdsUnique(db)
      requires forall u, v | u in db.cnodeUsers && v in db.cnodeUsers && db.cnodeUsers[u] == db.cnodeUsers[v] :: u == v
      modifies this
      ensures ReferencesHold(db)
      ensures error ==> db == old(db)
      ensures lookupWallet != "" ==> forall u | u in old(db).cnodeUsers && old(db).cnodeUsers[u] == lookupWallet ::
                Deletes(old(db), db, u, failsAt, error)
      ensures lookupWallet != "" && (forall u | u in old(db).cnodeUsers :: old(db).cnodeUsers[u] != lookupWallet) ==>
                !error && db == old(db)
      ensures lookupWallet == "" && lookupCNodeUserUUID in old(db).cnodeUsers ==>
                Deletes(old(db), db, lookupCNodeUserUUID, failsAt, error)
      ensures lookupWallet == "" && lookupCNodeUserUUID !in old(db).cnodeUsers ==> !error && db == old(db)
    {
      var start := db;
      var cnodeUser := FindUser(db, lookupCNodeUserUUID, lookupWallet);
      if cnodeUser.None? {
        return false;
      }
      BlockedExactly(db, cnodeUser.value);
      error := DeleteRows(cnodeUser.value, failsAt);
      if error {
        db := start;
      } else {
        AllDeletedIsWithoutUser(start, cnodeUser.value);
      }
    }

    /** The deletes one after the other, up to the first error. */
    method DeleteRows(user: UserId, failsAt: Option<nat>) returns (error: bool)
      requires ReferencesHold(db) && FileIdsUnique(db)
      modifies this
      ensures error <==> Blocked(old(db), user, |ORDER|) || (failsAt.Some? && failsAt.value < |ORDER|)
      ensures !error ==> db == DeleteFirst(old(db), user, |ORDER|) && ReferencesHold(db)
      ensures !error ==> forall k | 0 <= k <= |ORDER| :: ReferencesHold(DeleteFirst(old(db), user, k))
    {
      ghost var start := db;
      for k := 0 to |ORDER|
        invariant db == DeleteFirst(start, user, k) && (failsAt.Some? ==> k <= failsAt.value)
        invariant forall j | 0 <= j <= k :: ReferencesHold(DeleteFirst(start, user, j))
      {
        var next := Delete(db, user, ORDER[k]);
        ReferencesHoldUnlessBlocked(start, user, k + 1);
        if failsAt == Some(k) {
          return true;
        }
        if !ReferencesHold(next) {
          BlockedStaysBlocked(start, user, k + 1, |ORDER|);
          return true;
        }
        db := next;
      }
      ReferencesHoldUnlessBlocked(start, user, |ORDER|);
      error := false;
    }
  }
}
