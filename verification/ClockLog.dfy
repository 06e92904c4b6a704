// The per-user clock log of creator-node/src/dbManager.js: createNewDataRecord runs as three
// statements inside a transaction, and statements of different transactions interleave freely.
module ClockLog {
  import opened Wrappers

  type UserId = string
  type TxId = nat

  datatype Table = AudiusUser | Track | File | Playlist

  datatype ClockRecord = ClockRecord(user: UserId, clock: nat, sourceTable: Table)
  datatype DataRow = DataRow(user: UserId, clock: nat, table: Table, queryObj: string)

  /** CNodeUsers.clock, ClockRecords and the data tables. No key is enforced, so a repeat would show. */
  datatype Database = Database(
    clocks: map<UserId, nat>,
    records: multiset<ClockRecord>,
    rows: multiset<DataRow>)

  // ---------- Meaning: one write after another ----------

  datatype Write = Write(user: UserId, table: Table, queryObj: string)

  /** A whole createNewDataRecord with nothing in between. */
  function Append(db: Database, w: Write): Database
    requires w.user in db.clocks
  {
    var clock := db.clocks[w.user] + 1;
    Database(
      db.clocks[w.user := clock],
      db.records + multiset{ClockRecord(w.user, clock, w.table)},
      db.rows + multiset{DataRow(w.user, clock, w.table, w.queryObj)})
  }

  ghost predicate UsersExist(db: Database, ws: seq<Write>) {
    forall w | w in ws :: w.user in db.clocks
  }

  function Replay(db: Database, ws: seq<Write>): (r: Database)
    requires UsersExist(db, ws)
    ensures r.clocks.Keys == db.clocks.Keys
    decreases |ws|
  {
    if ws == [] then db
    else
      var prior := ws[..|ws| - 1];
      assert forall w | w in prior :: w in ws;
      Append(Replay(db, prior), ws[|ws| - 1])
  }

  lemma ReplaySnoc(db: Database, ws: seq<Write>, w: Write)
    requires UsersExist(db, ws) && w.user in db.clocks
    ensures UsersExist(db, ws + [w]) && Replay(db, ws + [w]) == Append(Replay(db, ws), w)
  {
    assert (ws + [w])[..|ws|] == ws;
  }

  lemma {:induction false} ReplayConcat(db: Database, a: seq<Write>, b: seq<Write>)
    requires UsersExist(db, a) && UsersExist(db, b)
    ensures UsersExist(db, a + b) && Replay(db, a + b) == Replay(Replay(db, a), b)
    decreases |b|
  {
    if b == [] {
      assert a + b == a;
    } else {
      var prior, last := b[..|b| - 1], b[|b| - 1];
      assert b == prior + [last] && a + b == (a + prior) + [last];
      assert forall w | w in prior :: w in b;
      assert last in b;
      ReplayConcat(db, a, prior);
      ReplaySnoc(db, a + prior, last);
      ReplaySnoc(Replay(db, a), prior, last);
    }
  }

  // ---------- Transactions ----------

  /** Where a transaction stands inside createNewDataRecord. */
  datatype Phase = Ready | Incremented(write: Write) | Recorded(write: Write) | Failed

  /**
   * What a transaction has done and not committed. It holds the row lock of every user whose clock it
   * has updated. writes lists the calls it has completed.
   */
  datatype Tx = Tx(
    phase: Phase,
    clocks: map<UserId, nat>,
    records: multiset<ClockRecord>,
    rows: multiset<DataRow>,
    writes: seq<Write>)

  const NEW_TX := Tx(Ready, map[], multiset{}, multiset{}, [])

  /** What the transaction's own statements read. */
  function View(db: Database, tx: Tx): Database {
    Database(db.clocks + tx.clocks, db.records + tx.records, db.rows + tx.rows)
  }

  datatype Action =
    | Begin(tx: TxId)
    | IncrementClock(tx: TxId, write: Write)
    | CreateClockRecord(tx: TxId)
    | CreateDataRow(tx: TxId)
    | Fail(tx: TxId)
    | Commit(tx: TxId)
    | Rollback(tx: TxId)

  /** history lists the writes of the committed transactions, in commit order. */
  datatype State = State(db: Database, open: map<TxId, Tx>, history: seq<Write>)
  {
    predicate LockedByAnother(tx: TxId, user: UserId) {
      exists other | other in open :: other != tx && user in open[other].clocks
    }

    /**
     * Whether the statement can run now. An update waits for the row lock; commit and rollback come
     * between calls or after an error, as every caller awaits its statements in order.
     */
    predicate Enabled(a: Action) {
      match a
      case Begin(tx) => tx !in open
      case IncrementClock(tx, w) => tx in open && open[tx].phase.Ready? && !LockedByAnother(tx, w.user)
      case CreateClockRecord(tx) => tx in open && open[tx].phase.Incremented?
      case CreateDataRow(tx) => tx in open && open[tx].phase.Recorded?
      case Fail(tx) => tx in open
      case Commit(tx) => tx in open && (open[tx].phase.Ready? || open[tx].phase.Failed?)
      case Rollback(tx) => tx in open
    }

    function Step(a: Action): State
      requires Enabled(a)
    {
      match a
      case Begin(tx) => this.(open := open[tx := NEW_TX])
      case IncrementClock(tx, w) => this.(open := open[tx := AfterIncrement(db, open[tx], w)])
      case CreateClockRecord(tx) => this.(open := open[tx := AfterClockRecord(db, open[tx])])
      case CreateDataRow(tx) => this.(open := open[tx := AfterDataRow(db, open[tx])])
      case Fail(tx) => this.(open := open[tx := open[tx].(phase := Failed)])
      case Commit(tx) =>
        if open[tx].phase.Failed? then this.(open := open - {tx})
        else State(View(db, open[tx]), open - {tx}, history + open[tx].writes)
      case Rollback(tx) => this.(open := open - {tx})
    }

    ghost predicate Runs(actions: seq<Action>)
      decreases actions
    {
      actions == [] || (Enabled(actions[0]) && Step(actions[0]).Runs(actions[1..]))
    }

    ghost function Run(actions: seq<Action>): State
      requires Runs(actions)
      decreases actions
    {
      if actions == [] then this else Step(actions[0]).Run(actions[1..])
    }
  }

  /** UPDATE ... SET clock = clock + 1: no row, and so no lock, for an unknown user. */
  function AfterIncrement(db: Database, tx: Tx, w: Write): Tx {
    var clocks := View(db, tx).clocks;
    var next := tx.(phase := Incremented(w));
    if w.user in clocks then next.(clocks := tx.clocks[w.user := clocks[w.user] + 1]) else next
  }

  /** The clock is a subquery; for an unknown user it is null, which the column refuses. */
  function AfterClockRecord(db: Database, tx: Tx): Tx
    requires tx.phase.Incremented?
  {
    var w := tx.phase.write;
    var clocks := View(db, tx).clocks;
    if w.user !in clocks then tx.(phase := Failed)
    else tx.(phase := Recorded(w), records := tx.records + multiset{ClockRecord(w.user, clocks[w.user], w.table)})
  }

  function AfterDataRow(db: Database, tx: Tx): Tx
    requires tx.phase.Recorded?
  {
    var w := tx.phase.write;
    var clocks := View(db, tx).clocks;
    if w.user !in clocks then tx.(phase := Failed)
    else tx.(
      phase := Ready,
      rows := tx.rows + multiset{DataRow(w.user, clocks[w.user], w.table, w.queryObj)},
      writes := tx.writes + [w])
  }

  /** Nothing has been committed, and the other transactions are as they were. */
  ghost predicate OnlyTouches(before: State, after: State, tx: TxId) {
    && after.db == before.db && after.history == before.history && after.open.Keys == before.open.Keys + {tx}
    && forall t | t in before.open && t != tx :: after.open[t] == before.open[t]
  }

  lemma TouchesTwice(a: State, b: State, c: State, tx: TxId)
    requires OnlyTouches(a, b, tx) && OnlyTouches(b, c, tx)
    ensures OnlyTouches(a, c, tx)
  {
  }

  lemma IncrementSeen(db: Database, tx: Tx, w: Write)
    ensures var before := View(db, tx);
            View(db, AfterIncrement(db, tx, w)) ==
            if w.user in before.clocks then before.(clocks := before.clocks[w.user := before.clocks[w.user] + 1])
            else before
  {
    var before := View(db, tx);
    if w.user in before.clocks {
      assert db.clocks + tx.clocks[w.user := before.clocks[w.user] + 1] ==
             before.clocks[w.user := before.clocks[w.user] + 1];
    }
  }

  lemma IncrementTouches(s: State, tx: TxId, w: Write)
    requires s.Enabled(IncrementClock(tx, w))
    ensures var next := s.Step(IncrementClock(tx, w));
            && OnlyTouches(s, next, tx)
            && next.open[tx].phase == Incremented(w) && next.open[tx].writes == s.open[tx].writes
            && next.open[tx].clocks.Keys == s.open[tx].clocks.Keys + (if w.user in s.db.clocks then {w.user} else {})
  {
  }

  /** The transaction's own clock of a user hides the committed one. */
  lemma IncrementCases(db: Database, tx: Tx, w: Write)
    ensures AfterIncrement(db, tx, w) ==
            if w.user in tx.clocks then
              tx.(phase := Incremented(w), clocks := tx.clocks[w.user := tx.clocks[w.user] + 1])
            else if w.user in db.clocks then
              tx.(phase := Incremented(w), clocks := tx.clocks[w.user := db.clocks[w.user] + 1])
            else tx.(phase := Incremented(w))
  {
  }

  /** A record or a row that the transaction adds is added to what it sees. */
  lemma AddedToView(db: Database, tx: Tx)
    ensures forall r :: db.records + (tx.records + multiset{r}) == db.records + tx.records + multiset{r}
    ensures forall r :: db.rows + (tx.rows + multiset{r}) == db.rows + tx.rows + multiset{r}
  {
  }

  /** One record and one data row with this clock. */
  function WithRecords(db: Database, clock: nat, w: Write): Database {
    db.(records := db.records + multiset{ClockRecord(w.user, clock, w.table)},
        rows := db.rows + multiset{DataRow(w.user, clock, w.table, w.queryObj)})
  }

  lemma AppendInParts(db: Database, w: Write)
    requires w.user in db.clocks
    ensures var clock := db.clocks[w.user] + 1;
            WithRecords(db.(clocks := db.clocks[w.user := clock]), clock, w) == Append(db, w)
  {
  }

  // ---------- The server ----------

  class Server {
    var db: Database
    var open: map<TxId, Tx>
    ghost var history: seq<Write>

    ghost function Snapshot(): State
      reads this
    {
      State(db, open, history)
    }

    /** The database as the transaction sees it. */
    ghost function Seen(tx: TxId): Database
      requires tx in open
      reads this
    {
      View(db, open[tx])
    }

    constructor (initial: Database)
      ensures Snapshot() == State(initial, map[], [])
    {
      db := initial;
      open := map[];
      history := [];
    }

    method BeginTransaction(tx: TxId)
      requires tx !in open
      modifies this
      ensures Snapshot() == old(Snapshot()).Step(Begin(tx))
      ensures db == old(db) && history == old(history) && open == old(open)[tx := open[tx]]
      ensures tx in open && open[tx].phase.Ready? && open[tx].writes == [] && Seen(tx) == db
    {
      open := open[tx := NEW_TX];
      assert db.clocks + map[] == db.clocks;
    }

    /** CNodeUser.increment('clock'), once the row lock is granted. */
    method Increment(tx: TxId, w: Write)
      requires tx in open && open[tx].phase.Ready?
      requires forall other | other in open && other != tx :: w.user !in open[other].clocks
      modifies this
      ensures Snapshot() == old(Snapshot()).Step(IncrementClock(tx, w))
      ensures OnlyTouches(old(Snapshot()), Snapshot(), tx)
      ensures open[tx].phase == Incremented(w) && open[tx].writes == old(open[tx].writes)
      ensures open[tx].clocks.Keys == old(open[tx].clocks.Keys) + (if w.user in old(db).clocks then {w.user} else {})
      ensures var before := old(Seen(tx));
              Seen(tx) ==
              if w.user in before.clocks then before.(clocks := before.clocks[w.user := before.clocks[w.user] + 1])
              else before
    {
      var t := open[tx];
      IncrementTouches(Snapshot(), tx, w);
      IncrementSeen(db, t, w);
      IncrementCases(db, t, w);
      if w.user in t.clocks {
        t := t.(clocks := t.clocks[w.user := t.clocks[w.user] + 1]);
      } else if w.user in db.clocks {
        t := t.(clocks := t.clocks[w.user := db.clocks[w.user] + 1]);
      }
      t := t.(phase := Incremented(w));
      assert t == AfterIncrement(db, open[tx], w);
      open := open[tx := t];
    }

    method InsertClockRecord(tx: TxId)
      requires tx in open && open[tx].phase.Incremented?
      modifies this
      ensures Snapshot() == old(Snapshot()).Step(CreateClockRecord(tx))
      ensures OnlyTouches(old(Snapshot()), Snapshot(), tx)
      ensures var before, w := old(Seen(tx)), old(open[tx].phase.write);
              if w.user in before.clocks then
                && open[tx].phase == Recorded(w)
                && Seen(tx) == before.(records := before.records +
                                 multiset{ClockRecord(w.user, before.clocks[w.user], w.table)})
              else open[tx].phase.Failed? && Seen(tx) == before
    {
      AddedToView(db, open[tx]);
      open := open[tx := AfterClockRecord(db, open[tx])];
    }

    method InsertDataRow(tx: TxId)
      requires tx in open && open[tx].phase.Recorded?
      modifies this
      ensures Snapshot() == old(Snapshot()).Step(CreateDataRow(tx))
      ensures OnlyTouches(old(Snapshot()), Snapshot(), tx)
      ensures var before, w := old(Seen(tx)), old(open[tx].phase.write);
              if w.user in before.clocks then
                && open[tx].phase.Ready? && open[tx].writes == old(open[tx].writes) + [w]
                && Seen(tx) == before.(rows := before.rows +
                                 multiset{DataRow(w.user, before.clocks[w.user], w.table, w.queryObj)})
              else open[tx].phase.Failed? && Seen(tx) == before
    {
      AddedToView(db, open[tx]);
      open := open[tx := AfterDataRow(db, open[tx])];
    }

    /** The two inserts that follow the increment. */
    method InsertRecords(tx: TxId, ghost w: Write)
      requires tx in open && open[tx].phase == Incremented(w)
      modifies this
      ensures OnlyTouches(old(Snapshot()), Snapshot(), tx)
      ensures var before := old(Seen(tx));
              if w.user in before.clocks then
                && open[tx].phase.Ready? && open[tx].writes == old(open[tx].writes) + [w]
                && Seen(tx) == WithRecords(before, before.clocks[w.user], w)
              else open[tx].phase.Failed? && Seen(tx) == before
    {
      ghost var first := Snapshot();
      InsertClockRecord(tx);
      ghost var second := Snapshot();
      if open[tx].phase.Recorded? {
        InsertDataRow(tx);
        TouchesTwice(first, second, Snapshot(), tx);
      }
    }

    /**
     * createNewDataRecord, when nobody else's statement comes in between: to the transaction itself, its write
     * has been appended to the log, and to everybody else nothing has happened.
     */
    method CreateNewDataRecord(tx: TxId, w: Write)
      requires tx in open && open[tx].phase.Ready?
      requires forall other | other in open && other != tx :: w.user !in open[other].clocks
      modifies this
      ensures OnlyTouches(old(Snapshot()), Snapshot(), tx)
      ensures var before := old(Seen(tx));
              if w.user in before.clocks then
                && open[tx].phase.Ready? && open[tx].writes == old(open[tx].writes) + [w]
                && Seen(tx) == Append(before, w)
              else open[tx].phase.Failed? && Seen(tx) == before
    {
      ghost var first, before := Snapshot(), Seen(tx);
      Increment(tx, w);
      ghost var second := Snapshot();
      InsertRecords(tx, w);
      TouchesTwice(first, second, Snapshot(), tx);
      if w.user in before.clocks {
        AppendInParts(before, w);
      }
    }

    method CommitTransaction(tx: TxId)
      requires tx in open && (open[tx].phase.Ready? || open[tx].phase.Failed?)
      modifies this
      ensures Snapshot() == old(Snapshot()).Step(Commit(tx))
      ensures open == old(open) - {tx}
      ensures if old(open[tx].phase.Ready?) then db == old(Seen(tx)) && history == old(history) + old(open[tx].writes)
              else db == old(db) && history == old(history)
    {
      var t := open[tx];
      if !t.phase.Failed? {
        db := View(db, t);
        history := history + t.writes;
      }
      open := open - {tx};
    }

    method RollbackTransaction(tx: TxId)
      requires tx in open
      modifies this
      ensures Snapshot() == old(Snapshot()).Step(Rollback(tx))
      ensures db == old(db) && history == old(history) && open == old(open) - {tx}
    {
      open := open - {tx};
    }
  }

  // ---------- The invariant ----------

  /** The transaction's view is the committed database with its completed writes replayed on top. */
  ghost predicate TxInvariant(db: Database, tx: Tx) {
    && tx.clocks.Keys <= db.clocks.Keys
    && (forall w | w in tx.writes :: w.user in tx.clocks)
    && match tx.phase
       case Ready => View(db, tx) == Replay(db, tx.writes)
       case Incremented(w) => HalfDone(db, Replay(db, tx.writes), tx, w, multiset{})
       case Recorded(w) =>
         w.user in tx.clocks && HalfDone(db, Replay(db, tx.writes), tx, w, multiset{ClockRecord(w.user, tx.clocks[w.user], w.table)})
       case Failed => true
  }

  /** Between the increment and the data row: the clock of w.user is one ahead, and its lock is held. */
  ghost predicate HalfDone(db: Database, base: Database, tx: Tx, w: Write, records: multiset<ClockRecord>)
    requires base.clocks.Keys == db.clocks.Keys
  {
    if w.user in db.clocks then
      && w.user in tx.clocks
      && View(db, tx) == Database(base.clocks[w.user := base.clocks[w.user] + 1], base.records + records, base.rows)
    else View(db, tx) == base
  }

  ghost predicate LocksExclusive(s: State) {
    forall t, u | t in s.open && u in s.open && t != u :: s.open[t].clocks.Keys !! s.open[u].clocks.Keys
  }

  /** Everything committed is the committed transactions' writes, replayed one after another. */
  ghost predicate Invariant(initial: Database, s: State) {
    && LocksExclusive(s)
    && (forall t | t in s.open :: TxInvariant(s.db, s.open[t]))
    && UsersExist(initial, s.history)
    && s.db == Replay(initial, s.history)
  }

  /** Replaying writes of locked users commutes with another transaction's changes. */
  lemma {:induction false} ReplayCommutesWithOther(db: Database, other: Tx, ws: seq<Write>)
    requires other.clocks.Keys <= db.clocks.Keys && UsersExist(db, ws)
    requires forall w | w in ws :: w.user !in other.clocks
    ensures UsersExist(View(db, other), ws)
    ensures Replay(View(db, other), ws) == View(Replay(db, ws), other)
    decreases |ws|
  {
    if ws != [] {
      var prior := ws[..|ws| - 1];
      assert forall w | w in prior :: w in ws;
      ReplayCommutesWithOther(db, other, prior);
      AppendCommutesWithOther(Replay(db, prior), other, ws[|ws| - 1]);
    }
  }

  lemma AppendCommutesWithOther(db: Database, other: Tx, w: Write)
    requires w.user in db.clocks && w.user !in other.clocks
    ensures Append(View(db, other), w) == View(Append(db, w), other)
  {
    var a, b := Append(View(db, other), w), View(Append(db, w), other);
    assert a.clocks == b.clocks;
    assert a.records == b.records;
    assert a.rows == b.rows;
  }

  lemma ViewsCommute(db: Database, done: Tx, tx: Tx)
    requires done.clocks.Keys !! tx.clocks.Keys
    ensures View(View(db, done), tx) == View(View(db, tx), done)
  {
    var a, b := View(View(db, done), tx), View(View(db, tx), done);
    assert a.clocks == b.clocks;
    assert a.records == b.records;
    assert a.rows == b.rows;
  }

  lemma ViewOfHalfDone(base: Database, done: Tx, user: UserId, records: multiset<ClockRecord>)
    requires user in base.clocks && user !in done.clocks
    ensures View(Database(base.clocks[user := base.clocks[user] + 1], base.records + records, base.rows), done) ==
            var v := View(base, done); Database(v.clocks[user := v.clocks[user] + 1], v.records + records, v.rows)
  {
    var v := View(base, done);
    assert base.clocks[user := base.clocks[user] + 1] + done.clocks == v.clocks[user := v.clocks[user] + 1];
    assert base.records + records + done.records == v.records + records;
  }

  /** A commit leaves the invariant of every other open transaction intact. */
  lemma OtherTxKeepsInvariant(db: Database, done: Tx, tx: Tx)
    requires TxInvariant(db, tx) && done.clocks.Keys <= db.clocks.Keys && done.clocks.Keys !! tx.clocks.Keys
    ensures TxInvariant(View(db, done), tx)
  {
    ReplayCommutesWithOther(db, done, tx.writes);
    ViewsCommute(db, done, tx);
    assert View(db, done).clocks.Keys == db.clocks.Keys;
    match tx.phase
    case Incremented(w) => HalfDoneSurvives(db, Replay(db, tx.writes), done, tx, w, multiset{});
    case Recorded(w) =>
      HalfDoneSurvives(db, Replay(db, tx.writes), done, tx, w, multiset{ClockRecord(w.user, tx.clocks[w.user], w.table)});
    case _ =>
  }

  lemma HalfDoneSurvives(db: Database, base: Database, done: Tx, tx: Tx, w: Write, records: multiset<ClockRecord>)
    requires base.clocks.Keys == db.clocks.Keys && HalfDone(db, base, tx, w, records)
    requires done.clocks.Keys !! tx.clocks.Keys && done.clocks.Keys <= db.clocks.Keys
    ensures HalfDone(View(db, done), View(base, done), tx, w, records)
  {
    ViewsCommute(db, done, tx);
    if w.user in db.clocks {
      ViewOfHalfDone(base, done, w.user, records);
    }
  }

  lemma IncrementKeepsTx(db: Database, tx: Tx, w: Write)
    requires TxInvariant(db, tx) && tx.phase.Ready?
    ensures TxInvariant(db, AfterIncrement(db, tx, w))
  {
    IncrementHalfDoes(db, Replay(db, tx.writes), tx, w);
  }

  lemma IncrementHalfDoes(db: Database, base: Database, tx: Tx, w: Write)
    requires View(db, tx) == base && base.clocks.Keys == db.clocks.Keys && tx.clocks.Keys <= db.clocks.Keys
    ensures HalfDone(db, base, AfterIncrement(db, tx, w), w, multiset{})
  {
    var next := AfterIncrement(db, tx, w);
    assert base.records + multiset{} == base.records;
    if w.user in db.clocks {
      assert View(db, next).clocks == base.clocks[w.user := base.clocks[w.user] + 1];
    }
  }

  lemma ClockRecordKeepsTx(db: Database, tx: Tx)
    requires TxInvariant(db, tx) && tx.phase.Incremented?
    ensures TxInvariant(db, AfterClockRecord(db, tx))
  {
    ClockRecordHalfDoes(db, Replay(db, tx.writes), tx, tx.phase.write);
  }

  lemma ClockRecordHalfDoes(db: Database, base: Database, tx: Tx, w: Write)
    requires base.clocks.Keys == db.clocks.Keys && HalfDone(db, base, tx, w, multiset{})
    requires tx.phase == Incremented(w) && tx.clocks.Keys <= db.clocks.Keys
    ensures if w.user in db.clocks then
              && w.user in tx.clocks && AfterClockRecord(db, tx).phase == Recorded(w)
              && HalfDone(db, base, AfterClockRecord(db, tx), w, multiset{ClockRecord(w.user, tx.clocks[w.user], w.table)})
            else AfterClockRecord(db, tx).phase == Failed
  {
    assert View(db, tx).clocks.Keys == db.clocks.Keys;
    if w.user in db.clocks {
      var record := ClockRecord(w.user, tx.clocks[w.user], w.table);
      assert View(db, tx).clocks[w.user] == tx.clocks[w.user];
      RecordAdded(db.records, tx.records, base.records, multiset{record});
    }
  }

  lemma RecordAdded<T>(db: multiset<T>, tx: multiset<T>, base: multiset<T>, added: multiset<T>)
    requires db + tx == base + multiset{}
    ensures db + (tx + added) == base + added
  {
    assert db + (tx + added) == db + tx + added;
    assert base + multiset{} == base;
  }

  lemma DataRowKeepsTx(db: Database, tx: Tx)
    requires TxInvariant(db, tx) && tx.phase.Recorded?
    ensures TxInvariant(db, AfterDataRow(db, tx))
  {
    var w := tx.phase.write;
    var next := AfterDataRow(db, tx);
    assert View(db, tx).clocks[w.user] == tx.clocks[w.user];
    ReplaySnoc(db, tx.writes, w);
    DataRowCompletesWrite(db, Replay(db, tx.writes), tx, w);
    assert forall x | x in next.writes :: x == w || x in tx.writes;
  }

  lemma DataRowCompletesWrite(db: Database, base: Database, tx: Tx, w: Write)
    requires base.clocks.Keys == db.clocks.Keys && w.user in db.clocks && w.user in tx.clocks
    requires tx.phase == Recorded(w)
    requires HalfDone(db, base, tx, w, multiset{ClockRecord(w.user, tx.clocks[w.user], w.table)})
    ensures View(db, AfterDataRow(db, tx)) == Append(base, w)
  {
    var clock := tx.clocks[w.user];
    var row := DataRow(w.user, clock, w.table, w.queryObj);
    assert View(db, tx).clocks[w.user] == clock;
    assert clock == base.clocks[w.user] + 1;
    assert db.rows + (tx.rows + multiset{row}) == (db.rows + tx.rows) + multiset{row};
  }

  lemma CommitKeepsInvariant(initial: Database, s: State, tx: TxId)
    requires Invariant(initial, s) && tx in s.open && s.open[tx].phase.Ready?
    ensures Invariant(initial, s.Step(Commit(tx)))
  {
    var done := s.open[tx];
    var next := s.Step(Commit(tx));
    forall t | t in next.open ensures TxInvariant(next.db, next.open[t]) {
      OtherTxKeepsInvariant(s.db, done, s.open[t]);
    }
    ReplayConcat(initial, s.history, done.writes);
  }

  /** Replacing one open transaction by one that is in order and takes no other's lock. */
  lemma TxUpdateKeepsInvariant(initial: Database, s: State, tx: TxId, next: Tx)
    requires Invariant(initial, s) && TxInvariant(s.db, next)
    requires forall t | t in s.open && t != tx :: s.open[t].clocks.Keys !! next.clocks.Keys
    ensures Invariant(initial, s.(open := s.open[tx := next]))
  {
  }

  lemma StepKeepsInvariant(initial: Database, s: State, a: Action)
    requires Invariant(initial, s) && s.Enabled(a)
    ensures Invariant(initial, s.Step(a))
  {
    match a
    case IncrementClock(tx, w) => IncrementKeepsInvariant(initial, s, tx, w);
    case CreateClockRecord(tx) =>
      ClockRecordKeepsTx(s.db, s.open[tx]);
      TxUpdateKeepsInvariant(initial, s, tx, AfterClockRecord(s.db, s.open[tx]));
    case CreateDataRow(tx) =>
      DataRowKeepsTx(s.db, s.open[tx]);
      TxUpdateKeepsInvariant(initial, s, tx, AfterDataRow(s.db, s.open[tx]));
    case Begin(tx) =>
      assert View(s.db, NEW_TX) == s.db;
      TxUpdateKeepsInvariant(initial, s, tx, NEW_TX);
    case Fail(tx) =>
      TxUpdateKeepsInvariant(initial, s, tx, s.open[tx].(phase := Failed));
    case _ => EndKeepsInvariant(initial, s, a);
  }

  lemma IncrementKeepsInvariant(initial: Database, s: State, tx: TxId, w: Write)
    requires Invariant(initial, s) && s.Enabled(IncrementClock(tx, w))
    ensures Invariant(initial, s.Step(IncrementClock(tx, w)))
  {
    IncrementKeepsTx(s.db, s.open[tx], w);
    TxUpdateKeepsInvariant(initial, s, tx, AfterIncrement(s.db, s.open[tx], w));
  }

  /** A transaction ends. */
  lemma EndKeepsInvariant(initial: Database, s: State, a: Action)
    requires Invariant(initial, s) && s.Enabled(a) && (a.Commit? || a.Rollback?)
    ensures Invariant(initial, s.Step(a))
  {
    if a.Commit? && s.open[a.tx].phase.Ready? {
      CommitKeepsInvariant(initial, s, a.tx);
    }
  }

  /** Serializability: whatever the interleaving, the committed state is a serial replay in commit order. */
  lemma {:induction false} RunKeepsInvariant(initial: Database, s: State, actions: seq<Action>)
    requires Invariant(initial, s) && s.Runs(actions)
    ensures Invariant(initial, s.Run(actions))
    decreases actions
  {
    if actions != [] {
      StepKeepsInvariant(initial, s, actions[0]);
      RunKeepsInvariant(initial, s.Step(actions[0]), actions[1..]);
    }
  }

  // ---------- Only commits count ----------

  /** The statement ends a transaction that has not failed by a commit. */
  predicate Commits(s: State, a: Action) { a.Commit? && a.tx in s.open && s.open[a.tx].phase.Ready? }

  /** What the transactions committed along the run had written. */
  ghost function CommittedRows(s: State, actions: seq<Action>): multiset<DataRow>
    requires s.Runs(actions)
    decreases actions
  {
    if actions == [] then multiset{}
    else
      (if Commits(s, actions[0]) then s.open[actions[0].tx].rows else multiset{})
      + CommittedRows(s.Step(actions[0]), actions[1..])
  }

  ghost function CommittedRecords(s: State, actions: seq<Action>): multiset<ClockRecord>
    requires s.Runs(actions)
    decreases actions
  {
    if actions == [] then multiset{}
    else
      (if Commits(s, actions[0]) then s.open[actions[0].tx].records else multiset{})
      + CommittedRecords(s.Step(actions[0]), actions[1..])
  }

  ghost function CommittedWrites(s: State, actions: seq<Action>): seq<Write>
    requires s.Runs(actions)
    decreases actions
  {
    if actions == [] then []
    else
      (if Commits(s, actions[0]) then s.open[actions[0].tx].writes else [])
      + CommittedWrites(s.Step(actions[0]), actions[1..])
  }

  /**
   * Over every run, what the database has gained are exactly the rows and the records of the transactions that a
   * commit has ended while no statement of theirs had failed; the history lists just their writes.
   */
  lemma {:induction false} OnlyCommitsCount(s: State, actions: seq<Action>)
    requires s.Runs(actions)
    ensures s.Run(actions).db.rows == s.db.rows + CommittedRows(s, actions)
    ensures s.Run(actions).db.records == s.db.records + CommittedRecords(s, actions)
    ensures s.Run(actions).history == s.history + CommittedWrites(s, actions)
    decreases actions
  {
    if actions != [] {
      var next := s.Step(actions[0]);
      OnlyCommitsCount(next, actions[1..]);
      OneStepCommits(s, actions[0]);
    }
  }

  lemma OneStepCommits(s: State, a: Action)
    requires s.Enabled(a)
    ensures var next := s.Step(a);
            if Commits(s, a) then
              && next.db == View(s.db, s.open[a.tx])
              && next.db.rows == s.db.rows + s.open[a.tx].rows
              && next.db.records == s.db.records + s.open[a.tx].records
              && next.history == s.history + s.open[a.tx].writes
            else next.db == s.db && next.history == s.history
  {
  }

  /** So a run without a commit, whatever it rolls back, leaves the database as it was. */
  lemma {:induction false} NothingWithoutCommit(s: State, actions: seq<Action>)
    requires s.Runs(actions) && forall a | a in actions :: !a.Commit?
    ensures s.Run(actions).db == s.db && s.Run(actions).history == s.history
    decreases actions
  {
    if actions != [] {
      assert actions[0] in actions && forall a | a in actions[1..] :: a in actions;
      OneStepCommits(s, actions[0]);
      NothingWithoutCommit(s.Step(actions[0]), actions[1..]);
    }
  }

  // ---------- No gap, no repeat ----------

  /** Exactly one clock record and one data row carry this clock, and the record names the row's table. */
  ghost predicate OneRecordOneRow(db: Database, user: UserId, clock: nat) {
    exists row :: TheOnlyRow(db, user, clock, row)
  }

  ghost predicate TheOnlyRow(db: Database, user: UserId, clock: nat, row: DataRow) {
    && row.user == user && row.clock == clock
    && db.rows[row] == 1
    && (forall r | r in db.rows && r.user == user && r.clock == clock :: r == row)
    && db.records[ClockRecord(user, clock, row.table)] == 1
    && (forall r | r in db.records && r.user == user && r.clock == clock :: r == ClockRecord(user, clock, row.table))
  }

  /** Every user's clocks run from 1 to CNodeUsers.clock, and nothing else is recorded. */
  ghost predicate Consistent(db: Database) {
    && (forall u, i | u in db.clocks && 1 <= i <= db.clocks[u] :: OneRecordOneRow(db, u, i))
    && (forall r | r in db.records :: r.user in db.clocks && 1 <= r.clock <= db.clocks[r.user])
    && (forall r | r in db.rows :: r.user in db.clocks && 1 <= r.clock <= db.clocks[r.user])
  }

  lemma AppendKeepsConsistent(db: Database, w: Write)
    requires Consistent(db) && w.user in db.clocks
    ensures Consistent(Append(db, w))
  {
    var clock := db.clocks[w.user] + 1;
    var row := DataRow(w.user, clock, w.table, w.queryObj);
    assert row !in db.rows && ClockRecord(w.user, clock, w.table) !in db.records;
    assert TheOnlyRow(Append(db, w), w.user, clock, row);
    forall u, i | u in db.clocks && 1 <= i <= db.clocks[u] ensures OneRecordOneRow(Append(db, w), u, i) {
      EarlierClockStays(db, w, u, i);
    }
  }

  lemma EarlierClockStays(db: Database, w: Write, user: UserId, i: nat)
    requires w.user in db.clocks && user in db.clocks && i <= db.clocks[user] && OneRecordOneRow(db, user, i)
    ensures OneRecordOneRow(Append(db, w), user, i)
  {
    var row :| TheOnlyRow(db, user, i, row);
    assert TheOnlyRow(Append(db, w), user, i, row);
  }

  lemma {:induction false} ReplayKeepsConsistent(db: Database, ws: seq<Write>)
    requires Consistent(db) && UsersExist(db, ws)
    ensures Consistent(Replay(db, ws))
    decreases |ws|
  {
    if ws != [] {
      var prior := ws[..|ws| - 1];
      assert forall w | w in prior :: w in ws;
      ReplayKeepsConsistent(db, prior);
      AppendKeepsConsistent(Replay(db, prior), ws[|ws| - 1]);
    }
  }

  /**
   * In every reachable state, each user's committed clock records are exactly 1..clock, and each has
   * exactly one data row, in the table it names.
   */
  lemma ReachableIsConsistent(initial: Database, actions: seq<Action>)
    requires Consistent(initial) && State(initial, map[], []).Runs(actions)
    ensures Consistent(State(initial, map[], []).Run(actions).db)
  {
    var s := State(initial, map[], []);
    RunKeepsInvariant(initial, s, actions);
    ReplayKeepsConsistent(initial, s.Run(actions).history);
  }

  // ---------- The row lock is what makes it so ----------

  /** Two increments that both read the committed clock would record the same clock twice. */
  lemma WithoutTheLockAClockRepeats(user: UserId, table: Table)
    ensures var db := Database(map[user := 0], multiset{}, multiset{});
            var done := Alone(db, Write(user, table, ""));
            Consistent(db) && !Consistent(View(View(db, done), done))
  {
    var db := Database(map[user := 0], multiset{}, multiset{});
    var done := Alone(db, Write(user, table, ""));
    var row := DataRow(user, 1, table, "");
    assert done.clocks == map[user := 1] && done.rows == multiset{row};
    RepeatedRowIsInconsistent(View(View(db, done), done), row);
  }

  /** The transaction that has made one call on this database. */
  function Alone(db: Database, w: Write): Tx
    requires w.user in db.clocks
  {
    AfterDataRow(db, AfterClockRecord(db, AfterIncrement(db, NEW_TX, w)))
  }

  lemma RepeatedRowIsInconsistent(db: Database, row: DataRow)
    requires db.rows[row] >= 2
    ensures !Consistent(db)
  {
    assert row in db.rows;
    assert forall r :: !TheOnlyRow(db, row.user, row.clock, r);
    assert !OneRecordOneRow(db, row.user, row.clock);
  }

  // ---------- fixInconsistentUser ----------

  ghost predicate HasRecords(db: Database, user: UserId) {
    exists r :: r in db.records && r.user == user
  }

  ghost predicate IsMaxClock(db: Database, user: UserId, max: nat) {
    && (exists r :: r in db.records && r.user == user && r.clock == max)
    && (forall r | r in db.records && r.user == user :: r.clock <= max)
  }

  ghost function MaxClock(db: Database, user: UserId): (max: Option<nat>)
    ensures max.Some? <==> HasRecords(db, user)
    ensures max.Some? ==> IsMaxClock(db, user, max.value)
  {
    if HasRecords(db, user) then
      MaxClockExists(db, user);
      var max :| IsMaxClock(db, user, max);
      Some(max)
    else None
  }

  function WithClock(db: Database, user: UserId, max: Option<nat>): Database {
    if max.Some? && user in db.clocks then db.(clocks := db.clocks[user := max.value]) else db
  }

  /** The UPDATE joins on the grouped MAX, so a user without records, or without a row, is left alone. */
  ghost function FixInconsistentUser(db: Database, user: UserId): Database {
    WithClock(db, user, MaxClock(db, user))
  }

  lemma MaxClockExists(db: Database, user: UserId)
    requires HasRecords(db, user)
    ensures exists max :: IsMaxClock(db, user, max)
  {
    var clocks := set r | r in db.records && r.user == user :: r.clock;
    var r :| r in db.records && r.user == user;
    assert r.clock in clocks;
    var max := MaxOf(clocks);
    assert forall q | q in db.records && q.user == user :: q.clock in clocks;
    assert IsMaxClock(db, user, max);
  }

  lemma {:induction false} MaxOf(s: set<nat>) returns (max: nat)
    requires s != {}
    ensures max in s && forall x | x in s :: x <= max
    decreases |s|
  {
    max :| max in s;
    var rest := s - {max};
    assert forall x | x in s :: x == max || x in rest;
    if rest != {} {
      var m := MaxOf(rest);
      if m > max {
        max := m;
      }
    }
  }

  /** The repair puts the user's clock on the highest recorded one and changes nothing else. */
  lemma RepairSetsMaximum(db: Database, user: UserId, max: nat)
    requires user in db.clocks
    requires exists r :: r in db.records && r.user == user && r.clock == max
    requires forall r | r in db.records && r.user == user :: r.clock <= max
    ensures FixInconsistentUser(db, user) == Database(db.clocks[user := max], db.records, db.rows)
  {
    assert HasRecords(db, user) && IsMaxClock(db, user, max);
  }

  lemma RepairNeedsRecords(db: Database, user: UserId)
    requires user !in db.clocks || forall r | r in db.records :: r.user != user
    ensures FixInconsistentUser(db, user) == db
  {
  }

  /** After the repair of a user with records, no later write of theirs meets a clock already taken. */
  lemma {:induction false} RepairedUserNeverReuses(db: Database, user: UserId, ws: seq<Write>)
    requires user in db.clocks && HasRecords(db, user)
    requires UsersExist(FixInconsistentUser(db, user), ws)
    ensures var now := Replay(FixInconsistentUser(db, user), ws);
            && (forall r | r in now.records && r.user == user :: r.clock <= now.clocks[user])
            && !exists r :: r in now.records && r.user == user && r.clock == now.clocks[user] + 1
    decreases |ws|
  {
    if ws != [] {
      var prior := ws[..|ws| - 1];
      assert forall w | w in prior :: w in ws;
      RepairedUserNeverReuses(db, user, prior);
      AppendStaysAbove(Replay(FixInconsistentUser(db, user), prior), user, ws[|ws| - 1]);
    }
  }

  lemma AppendStaysAbove(db: Database, user: UserId, w: Write)
    requires user in db.clocks && w.user in db.clocks
    requires forall r | r in db.records && r.user == user :: r.clock <= db.clocks[user]
    ensures forall r | r in Append(db, w).records && r.user == user :: r.clock <= Append(db, w).clocks[user]
  {
  }
}
