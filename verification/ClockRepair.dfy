// fixInconsistentUser of creator-node/src/dbManager.js while transactions are open. Its UPDATE takes the maximum of
// the clock records when it starts, and writes it when it gets the row lock: nothing looks at the records again.
module ClockRepair {
  import opened ClockLog
  import opened Wrappers

  type RepairId = nat

  /** since is the number of writes that had been committed when the maximum was taken. */
  datatype Repair = Repair(user: UserId, max: Option<nat>, since: nat)

  datatype Event = Statement(action: Action) | ReadMax(r: RepairId, user: UserId) | WriteMax(r: RepairId)

  datatype Log = Log(s: State, repairs: map<RepairId, Repair>)
  {
    predicate Locked(user: UserId) { exists t | t in s.open :: user in s.open[t].clocks }

    /** Without a maximum there is no row to update, and so none to wait for. */
    predicate Enabled(e: Event) {
      match e
      case Statement(a) => s.Enabled(a)
      case ReadMax(r, user) => r !in repairs
      case WriteMax(r) => r in repairs && (repairs[r].max.Some? ==> !Locked(repairs[r].user))
    }

    ghost function Step(e: Event): Log
      requires Enabled(e)
    {
      match e
      case Statement(a) => this.(s := s.Step(a))
      case ReadMax(r, user) => this.(repairs := repairs[r := Repair(user, MaxClock(s.db, user), |s.history|)])
      case WriteMax(r) => Log(s.(db := WithClock(s.db, repairs[r].user, repairs[r].max)), repairs - {r})
    }

    ghost predicate Runs(events: seq<Event>)
      decreases events
    {
      events == [] || (Enabled(events[0]) && Step(events[0]).Runs(events[1..]))
    }
  }

  /** A repair that has a maximum waits just while a transaction is open that has incremented the user's clock. */
  lemma WaitsExactly(l: Log, r: RepairId)
    requires r in l.repairs
    ensures l.Enabled(WriteMax(r)) <==>
              l.repairs[r].max == None || forall t | t in l.s.open :: l.repairs[r].user !in l.s.open[t].clocks
  {
    if t :| t in l.s.open && l.repairs[r].user in l.s.open[t].clocks {
      assert l.Locked(l.repairs[r].user);
    }
  }

  /** No write of the user has been committed since the maximum was taken, or there was no maximum. */
  ghost predicate Current(l: Log, e: Event)
    requires l.Enabled(e)
  {
    e.WriteMax? ==>
      var repair := l.repairs[e.r];
      repair.max.None? || repair.since > |l.s.history| || NoWriteOf(repair.user, l.s.history[repair.since..])
  }

  ghost predicate NoWriteOf(user: UserId, ws: seq<Write>) { forall w | w in ws :: w.user != user }

  ghost predicate AlwaysConsistent(l: Log, events: seq<Event>)
    requires l.Runs(events)
    decreases events
  {
    Consistent(l.s.db) && (events == [] || AlwaysConsistent(l.Step(events[0]), events[1..]))
  }

  ghost predicate AllCurrent(l: Log, events: seq<Event>)
    requires l.Runs(events)
    decreases events
  {
    events == [] || (Current(l, events[0]) && AllCurrent(l.Step(events[0]), events[1..]))
  }

  // ---------- What a maximum says ----------

  /** In a consistent log the maximum is the clock. */
  lemma MaxIsClock(db: Database, user: UserId, max: nat)
    requires Consistent(db)
    ensures IsMaxClock(db, user, max) <==> user in db.clocks && db.clocks[user] == max && max > 0
  {
    if user in db.clocks && db.clocks[user] > 0 {
      assert OneRecordOneRow(db, user, db.clocks[user]);
      var row :| TheOnlyRow(db, user, db.clocks[user], row);
      assert ClockRecord(user, db.clocks[user], row.table) in db.records;
    }
  }

  /** A clock that is not the one recorded last breaks the log. */
  lemma OtherClockIsInconsistent(db: Database, user: UserId, clock: nat)
    requires Consistent(db) && user in db.clocks && clock < db.clocks[user]
    ensures !Consistent(WithClock(db, user, Some(clock)))
  {
    assert OneRecordOneRow(db, user, db.clocks[user]);
    var row :| TheOnlyRow(db, user, db.clocks[user], row);
    assert row in WithClock(db, user, Some(clock)).rows;
  }

  /** Replaying writes raises a clock exactly when one of them is that user's. */
  lemma {:induction false} ClockRises(db: Database, user: UserId, ws: seq<Write>)
    requires UsersExist(db, ws) && user in db.clocks
    ensures Replay(db, ws).clocks[user] >= db.clocks[user]
    ensures Replay(db, ws).clocks[user] == db.clocks[user] <==> NoWriteOf(user, ws)
    decreases |ws|
  {
    if ws != [] {
      var prior, last := ws[..|ws| - 1], ws[|ws| - 1];
      assert ws == prior + [last];
      assert UsersExist(db, prior) && last in ws;
      ClockRises(db, user, prior);
      ReplaySnoc(db, prior, last);
      assert NoWriteOf(user, ws) <==> NoWriteOf(user, prior) && last.user != user;
    }
  }

  /** A maximum that was right before these writes. */
  lemma WritesOvertake(db: Database, user: UserId, max: nat, ws: seq<Write>)
    requires Consistent(db) && IsMaxClock(db, user, max) && UsersExist(db, ws)
    ensures user in db.clocks && max <= Replay(db, ws).clocks[user]
    ensures max == Replay(db, ws).clocks[user] <==> NoWriteOf(user, ws)
  {
    MaxIsClock(db, user, max);
    ClockRises(db, user, ws);
  }

  // ---------- The invariant ----------

  /** The maximum is that of the log as it was when it was taken. */
  ghost predicate RepairInOrder(initial: Database, history: seq<Write>, repair: Repair) {
    && repair.since <= |history| && UsersExist(initial, history[..repair.since])
    && repair.max == MaxClock(Replay(initial, history[..repair.since]), repair.user)
  }

  ghost predicate InOrder(initial: Database, l: Log) {
    && Consistent(initial) && Invariant(initial, l.s)
    && forall r | r in l.repairs :: RepairInOrder(initial, l.s.history, l.repairs[r])
  }

  lemma HistoryGrows(s: State, a: Action)
    requires s.Enabled(a)
    ensures s.history <= s.Step(a).history
  {
  }

  lemma EarlierStays(initial: Database, before: seq<Write>, after: seq<Write>, repair: Repair)
    requires before <= after && RepairInOrder(initial, before, repair)
    ensures RepairInOrder(initial, after, repair)
  {
    assert after[..repair.since] == before[..repair.since];
  }

  lemma StatementInOrder(initial: Database, l: Log, a: Action)
    requires InOrder(initial, l) && l.s.Enabled(a)
    ensures InOrder(initial, l.(s := l.s.Step(a)))
  {
    StepKeepsInvariant(initial, l.s, a);
    HistoryGrows(l.s, a);
    RepairsStay(initial, l.s.history, l.s.Step(a).history, l.repairs);
  }

  lemma RepairsStay(initial: Database, before: seq<Write>, after: seq<Write>, repairs: map<RepairId, Repair>)
    requires before <= after && forall r | r in repairs :: RepairInOrder(initial, before, repairs[r])
    ensures forall r | r in repairs :: RepairInOrder(initial, after, repairs[r])
  {
    forall r | r in repairs ensures RepairInOrder(initial, after, repairs[r]) {
      EarlierStays(initial, before, after, repairs[r]);
    }
  }

  lemma ReadInOrder(initial: Database, l: Log, r: RepairId, user: UserId)
    requires InOrder(initial, l)
    ensures InOrder(initial, l.(repairs := l.repairs[r := Repair(user, MaxClock(l.s.db, user), |l.s.history|)]))
  {
    assert l.s.history[..|l.s.history|] == l.s.history;
  }

  /** What a repair has read is the user's clock exactly when no write of the user has been committed since. */
  lemma ReadIsClock(initial: Database, l: Log, r: RepairId)
    requires InOrder(initial, l) && r in l.repairs && l.repairs[r].max.Some?
    ensures l.repairs[r].since <= |l.s.history| && l.repairs[r].user in l.s.db.clocks
    ensures l.repairs[r].max.value <= l.s.db.clocks[l.repairs[r].user]
    ensures l.repairs[r].max.value == l.s.db.clocks[l.repairs[r].user] <==>
              NoWriteOf(l.repairs[r].user, l.s.history[l.repairs[r].since..])
  {
    assert RepairInOrder(initial, l.s.history, l.repairs[r]);
    ReadBefore(initial, l.s.history, l.repairs[r]);
  }

  lemma ReadBefore(initial: Database, history: seq<Write>, repair: Repair)
    requires Consistent(initial) && UsersExist(initial, history)
    requires RepairInOrder(initial, history, repair) && repair.max.Some?
    ensures repair.user in Replay(initial, history).clocks
    ensures repair.max.value <= Replay(initial, history).clocks[repair.user]
    ensures repair.max.value == Replay(initial, history).clocks[repair.user] <==>
              NoWriteOf(repair.user, history[repair.since..])
  {
    ReplaySplits(initial, history, repair.since);
    ReplayKeepsConsistent(initial, history[..repair.since]);
    WritesOvertake(
      Replay(initial, history[..repair.since]), repair.user, repair.max.value, history[repair.since..]);
  }

  lemma ReplaySplits(db: Database, ws: seq<Write>, k: nat)
    requires UsersExist(db, ws) && k <= |ws|
    ensures UsersExist(db, ws[..k]) && UsersExist(Replay(db, ws[..k]), ws[k..])
    ensures Replay(db, ws) == Replay(Replay(db, ws[..k]), ws[k..])
  {
    assert ws == ws[..k] + ws[k..];
    assert forall w | w in ws[k..] :: w in ws;
    ReplayConcat(db, ws[..k], ws[k..]);
  }

  lemma SameClockChangesNothing(db: Database, user: UserId, max: nat)
    requires user in db.clocks && max == db.clocks[user]
    ensures WithClock(db, user, Some(max)) == db
  {
    assert db.clocks[user := max] == db.clocks;
  }

  lemma CurrentWriteInOrder(initial: Database, l: Log, r: RepairId)
    requires InOrder(initial, l) && l.Enabled(WriteMax(r)) && Current(l, WriteMax(r))
    ensures InOrder(initial, l.Step(WriteMax(r)))
  {
    var repair := l.repairs[r];
    if repair.max.Some? {
      ReadIsClock(initial, l, r);
      SameClockChangesNothing(l.s.db, repair.user, repair.max.value);
    }
    assert WithClock(l.s.db, repair.user, repair.max) == l.s.db;
    assert l.Step(WriteMax(r)) == l.(repairs := l.repairs - {r});
  }

  lemma StaleWriteBreaks(initial: Database, l: Log, r: RepairId)
    requires InOrder(initial, l) && l.Enabled(WriteMax(r)) && !Current(l, WriteMax(r))
    ensures !Consistent(l.Step(WriteMax(r)).s.db)
  {
    var repair := l.repairs[r];
    ReadIsClock(initial, l, r);
    ReplayKeepsConsistent(initial, l.s.history);
    OtherClockIsInconsistent(l.s.db, repair.user, repair.max.value);
  }

  lemma StepInOrder(initial: Database, l: Log, e: Event)
    requires InOrder(initial, l) && l.Enabled(e)
    ensures if Current(l, e) then InOrder(initial, l.Step(e)) else !Consistent(l.Step(e).s.db)
  {
    match e
    case Statement(a) => StatementInOrder(initial, l, a);
    case ReadMax(r, user) => ReadInOrder(initial, l, r, user);
    case WriteMax(r) =>
      if Current(l, e) {
        CurrentWriteInOrder(initial, l, r);
      } else {
        StaleWriteBreaks(initial, l, r);
      }
  }

  /**
   * With repairs between the statements of any transactions, the committed log stays consistent after every step
   * exactly when no repair writes a maximum that a commit has overtaken.
   */
  lemma {:induction false} ConsistentWhileCurrent(initial: Database, l: Log, events: seq<Event>)
    requires InOrder(initial, l) && l.Runs(events)
    ensures AlwaysConsistent(l, events) <==> AllCurrent(l, events)
    decreases events
  {
    ReplayKeepsConsistent(initial, l.s.history);
    if events != [] {
      StepInOrder(initial, l, events[0]);
      if Current(l, events[0]) {
        ConsistentWhileCurrent(initial, l.Step(events[0]), events[1..]);
      } else {
        assert !AlwaysConsistent(l.Step(events[0]), events[1..]);
      }
    }
  }

  /** From the start on, for all transactions and repairs. */
  lemma RepairsKeepConsistentExactly(initial: Database, events: seq<Event>)
    requires Consistent(initial) && Log(State(initial, map[], []), map[]).Runs(events)
    ensures var l := Log(State(initial, map[], []), map[]);
            AlwaysConsistent(l, events) <==> AllCurrent(l, events)
  {
    ConsistentWhileCurrent(initial, Log(State(initial, map[], []), map[]), events);
  }

  // ---------- A repair can be overtaken ----------

  ghost predicate CanBeOvertaken(l: Log) { exists events :: l.Runs(events) && !AllCurrent(l, events) }

  lemma OvertakenNow(l: Log, e: Event)
    requires l.Enabled(e) && !Current(l, e)
    ensures CanBeOvertaken(l)
  {
    var events := [e];
    assert events[0] == e && events[1..] == [];
    assert l.Step(e).Runs([]);
    assert l.Runs(events);
    assert !AllCurrent(l, events);
  }

  lemma OvertakenAfter(l: Log, e: Event)
    requires l.Enabled(e) && CanBeOvertaken(l.Step(e))
    ensures CanBeOvertaken(l)
  {
    var events :| l.Step(e).Runs(events) && !AllCurrent(l.Step(e), events);
    assert ([e] + events)[1..] == events;
    assert l.Runs([e] + events) && !AllCurrent(l, [e] + events);
  }

  /**
   * From every consistent log: a repair that starts while a write of its user is under way, and waits for it to
   * commit, puts the clock back below the record that the write has left.
   */
  lemma WaitingRepairBreaks(initial: Database, w: Write)
    requires Consistent(initial) && w.user in initial.clocks && HasRecords(initial, w.user)
    ensures var l := Log(State(initial, map[], []), map[]);
            exists events :: l.Runs(events) && !AlwaysConsistent(l, events)
  {
    var l := Log(State(initial, map[], []), map[]);
    var begin, increment := Statement(Begin(0)), Statement(IncrementClock(0, w));
    var reading := l.Step(begin).Step(increment);
    assert reading.s.open[0].phase == Incremented(w);
    WriteOvertakes(reading, w);
    OvertakenAfter(l.Step(begin), increment);
    OvertakenAfter(l, begin);
    var events :| l.Runs(events) && !AllCurrent(l, events);
    RepairsKeepConsistentExactly(initial, events);
  }

  lemma WriteOvertakes(l: Log, w: Write)
    requires l.s.open.Keys == {0} && l.s.open[0].phase == Incremented(w) && l.s.open[0].writes == []
    requires l.repairs == map[] && l.s.history == [] && w.user in l.s.db.clocks && HasRecords(l.s.db, w.user)
    ensures CanBeOvertaken(l)
  {
    var read, record, row := ReadMax(0, w.user), Statement(CreateClockRecord(0)), Statement(CreateDataRow(0));
    var waiting := l.Step(read);
    var recorded := waiting.Step(record);
    assert recorded.s.open[0].phase == Recorded(w) && recorded.s.open[0].writes == [];
    var written := recorded.Step(row);
    assert written.s.open[0].phase.Ready? && written.s.open[0].writes == [w];
    CommitOvertakes(written, w);
    OvertakenAfter(recorded, row);
    OvertakenAfter(waiting, record);
    OvertakenAfter(l, read);
  }

  lemma CommitOvertakes(l: Log, w: Write)
    requires l.s.open.Keys == {0} && l.s.open[0].phase.Ready? && l.s.open[0].writes == [w] && l.s.history == []
    requires 0 in l.repairs && l.repairs[0].user == w.user && l.repairs[0].max.Some? && l.repairs[0].since == 0
    ensures CanBeOvertaken(l)
  {
    var commit := Statement(Commit(0));
    var committed := l.Step(commit);
    assert committed.s.history == [w] && committed.s.open.Keys == {};
    assert committed.s.history[0..][0].user == w.user;
    OvertakenNow(committed, WriteMax(0));
    OvertakenAfter(l, commit);
  }
}
