// WalletWriteLock of creator-node/src/redis.js: SET NX EX to acquire and an unconditional DEL to
// release, both under asyncRetry, by processes whose calls interleave while time passes.
module WalletLock {
  type Wallet = string
  type Pid = nat

  const SECONDARY_SYNC_FROM_PRIMARY := "secondarySyncFromPrimary"
  const PRIMARY_SYNC_FROM_SECONDARY := "primarySyncFromSecondary"

  predicate ValidAcquirer(a: string) {
    a == SECONDARY_SYNC_FROM_PRIMARY || a == PRIMARY_SYNC_FROM_SECONDARY
  }

  /** asyncRetry makes one attempt and up to five more. */
  const ATTEMPTS := 6

  /** A key in Redis. Redis stores the acquirer; setBy names the process whose SET created the key. */
  datatype Key = Key(acquirer: string, expiresAt: nat, setBy: Pid)

  /** What became of one call: it never reached Redis, it ran but its reply was lost, or all went well. */
  datatype Delivery = RequestLost | ReplyLost | Delivered

  /** Holding is what a process believes after acquire returned without an error. */
  datatype Process =
    | Idle
    | Acquiring(wallet: Wallet, acquirer: string, expirationSec: nat, left: nat)
    | Holding(wallet: Wallet, deadline: nat)
    | NotAcquired(wallet: Wallet)
    | Releasing(wallet: Wallet, left: nat, deadline: nat)

  datatype Action =
    | WaitUntil(time: nat)
    | StartAcquire(p: Pid, wallet: Wallet, acquirer: string, expirationSec: nat)
    | SendSet(p: Pid, d: Delivery)
    | StartRelease(p: Pid)
    | SendDel(p: Pid, d: Delivery)
    | ClearWriteLocks

  datatype State = State(now: nat, keys: map<Wallet, Key>, procs: map<Pid, Process>)
  {
    predicate KeyLive(w: Wallet) { w in keys && now < keys[w].expiresAt }

    function Proc(p: Pid): Process { if p in procs then procs[p] else Idle }

    predicate Believes(p: Pid, w: Wallet) { Proc(p).Holding? && Proc(p).wallet == w }

    predicate Enabled(a: Action) {
      match a
      case WaitUntil(time) => now <= time
      case StartAcquire(p, _, _, sec) => Proc(p).Idle? && sec > 0
      case SendSet(p, _) => Proc(p).Acquiring? && Proc(p).left > 0
      case StartRelease(p) => Proc(p).Holding? || Proc(p).NotAcquired?
      case SendDel(p, _) => Proc(p).Releasing? && Proc(p).left > 0
      case ClearWriteLocks => true
    }

    function Step(a: Action): State
      requires Enabled(a)
    {
      match a
      case WaitUntil(time) => this.(now := time)
      case StartAcquire(p, w, acquirer, sec) =>
        this.(procs := procs[p := if ValidAcquirer(acquirer) then Acquiring(w, acquirer, sec, ATTEMPTS) else NotAcquired(w)])
      case SendSet(p, d) => AfterSet(p, d)
      case StartRelease(p) =>
        this.(procs := procs[p := Releasing(Proc(p).wallet, ATTEMPTS, if Proc(p).Holding? then Proc(p).deadline else now)])
      case SendDel(p, d) => AfterDel(p, d)
      case ClearWriteLocks => this.(keys := map[])
    }

    /** SET key acquirer NX EX sec: it takes effect only where no live key stands. */
    function AfterSet(p: Pid, d: Delivery): State
      requires Proc(p).Acquiring? && Proc(p).left > 0
    {
      var q := Proc(p);
      var taken := KeyLive(q.wallet);
      var stored := if taken || d.RequestLost? then keys else keys[q.wallet := Key(q.acquirer, now + q.expirationSec, p)];
      var after :=
        if d.Delivered? then if taken then NotAcquired(q.wallet) else Holding(q.wallet, now + q.expirationSec)
        else if q.left == 1 then NotAcquired(q.wallet)
        else Acquiring(q.wallet, q.acquirer, q.expirationSec, q.left - 1);
      State(now, stored, procs[p := after])
    }

    /** DEL key, whoever set it. */
    function AfterDel(p: Pid, d: Delivery): State
      requires Proc(p).Releasing? && Proc(p).left > 0
    {
      var q := Proc(p);
      var after := if d.Delivered? || q.left == 1 then Idle else Releasing(q.wallet, q.left - 1, q.deadline);
      State(now, if d.RequestLost? then keys else keys - {q.wallet}, procs[p := after])
    }

    ghost predicate Runs(actions: seq<Action>)
      decreases actions
    {
      actions == [] || (Enabled(actions[0]) && Step(actions[0]).Runs(actions[1..]))
    }

    ghost function Run(actions: seq<Action>): State
      requires Runs(actions)
      decreases actions
    {
      if actions == [] then this else Step(actions[0]).Run(actions[1..])
    }

    // ---------- Reading the lock ----------

    function CurrentHolder(w: Wallet): string { if KeyLive(w) then keys[w].acquirer else "" }

    predicate SyncIsInProgress(w: Wallet) {
      CurrentHolder(w) == PRIMARY_SYNC_FROM_SECONDARY || CurrentHolder(w) == SECONDARY_SYNC_FROM_PRIMARY
    }
  }

  const START := State(0, map[], map[])

  // ---------- Redis and its callers ----------

  class Redis {
    var now: nat
    var keys: map<Wallet, Key>
    var procs: map<Pid, Process>

    ghost function Snapshot(): State
      reads this
    {
      State(now, keys, procs)
    }

    constructor ()
      ensures Snapshot() == START
    {
      now, keys, procs := 0, map[], map[];
    }

    method Wait(time: nat)
      requires now <= time
      modifies this
      ensures Snapshot() == old(Snapshot()).Step(WaitUntil(time))
    {
      now := time;
    }

    /** One try of the closure inside acquire. */
    method TrySet(p: Pid, d: Delivery)
      requires Snapshot().Proc(p).Acquiring? && Snapshot().Proc(p).left > 0
      modifies this
      ensures Snapshot() == old(Snapshot()).Step(SendSet(p, d))
    {
      var q := procs[p];
      var acquired := false;
      if !d.RequestLost? && !(q.wallet in keys && now < keys[q.wallet].expiresAt) {
        keys := keys[q.wallet := Key(q.acquirer, now + q.expirationSec, p)];
        acquired := true;
      }
      if d.Delivered? {
        procs := procs[p := if acquired then Holding(q.wallet, now + q.expirationSec) else NotAcquired(q.wallet)];
      } else {
        procs := procs[p := if q.left == 1 then NotAcquired(q.wallet)
                            else Acquiring(q.wallet, q.acquirer, q.expirationSec, q.left - 1)];
      }
    }

    /**
     * acquire with nobody else in between: deliveries says what becomes of each try. The process ends
     * up holding the lock exactly when the key was free and the first try to reach Redis got its reply.
     */
    method Acquire(p: Pid, w: Wallet, acquirer: string, expirationSec: nat, deliveries: seq<Delivery>)
      requires Snapshot().Proc(p).Idle? && expirationSec > 0 && |deliveries| == 6
      modifies this
      ensures var valid := acquirer == "secondarySyncFromPrimary" || acquirer == "primarySyncFromSecondary";
              var free := w !in old(keys) || old(keys)[w].expiresAt <= now;
              && (Snapshot().Believes(p, w) <==> valid && free && FirstToReach(deliveries, 0) == Delivered)
              && Snapshot().Proc(p) == (if Snapshot().Believes(p, w) then Holding(w, now + expirationSec) else NotAcquired(w))
              && keys == if valid && free && FirstToReach(deliveries, 0) != RequestLost
                         then old(keys)[w := Key(acquirer, now + expirationSec, p)]
                         else old(keys)
      ensures forall q | q != p :: Snapshot().Proc(q) == old(Snapshot()).Proc(q)
      ensures now == old(now)
    {
      if !ValidAcquirer(acquirer) {
        procs := procs[p := NotAcquired(w)];
        return;
      }
      procs := procs[p := Acquiring(w, acquirer, expirationSec, ATTEMPTS)];
      var i := 0;
      ghost var free := !Snapshot().KeyLive(w);
      ghost var stored := old(keys)[w := Key(acquirer, now + expirationSec, p)];
      ghost var first := FirstToReach(deliveries, 0);
      while procs[p].Acquiring?
        invariant now == old(now) && p in procs && 0 <= i <= ATTEMPTS
        invariant forall q | q != p :: Snapshot().Proc(q) == old(Snapshot()).Proc(q)
        invariant procs[p].Acquiring? ==>
                    && procs[p] == Acquiring(w, acquirer, expirationSec, ATTEMPTS - i) && i < ATTEMPTS
                    && ((keys == old(keys) && FirstToReach(deliveries, i) == first)
                        || (keys == (if free then stored else old(keys)) && first == ReplyLost))
        invariant !procs[p].Acquiring? ==>
                    && (procs[p] == NotAcquired(w) || procs[p] == Holding(w, now + expirationSec))
                    && (procs[p].Holding? <==> free && first == Delivered)
                    && keys == if free && first != RequestLost then stored else old(keys)
        decreases ATTEMPTS - i, procs[p].Acquiring?
      {
        TrySet(p, deliveries[i]);
        i := i + 1;
      }
    }

    /** One try of the closure inside release. */
    method TryDel(p: Pid, d: Delivery)
      requires Snapshot().Proc(p).Releasing? && Snapshot().Proc(p).left > 0
      modifies this
      ensures Snapshot() == old(Snapshot()).Step(SendDel(p, d))
      ensures var w := old(Snapshot()).Proc(p).wallet;
              && (if d.RequestLost? then keys == old(keys) else w !in keys && keys == old(keys) - {w})
              && now == old(now)
              && (forall q | q != p :: Snapshot().Proc(q) == old(Snapshot()).Proc(q))
              && (Snapshot().Proc(p).Idle? <==> d.Delivered? || old(Snapshot()).Proc(p).left == 1)
    {
      var q := procs[p];
      if !d.RequestLost? {
        keys := keys - {q.wallet};
      }
      procs := procs[p := if d.Delivered? || q.left == 1 then Idle else Releasing(q.wallet, q.left - 1, q.deadline)];
    }
  }

  /** What became of the first call, from index i on, that ran at all; RequestLost when none did. */
  function FirstToReach(ds: seq<Delivery>, i: nat): Delivery
    requires i <= |ds|
    decreases |ds| - i
  {
    if i == |ds| then RequestLost else if ds[i].RequestLost? then FirstToReach(ds, i + 1) else ds[i]
  }

  // ---------- Mutual exclusion ----------

  /** Whoever believes it holds a lock has its own live key in Redis until its deadline. */
  ghost predicate BeliefsAreRight(s: State) {
    forall p | p in s.procs && s.procs[p].Holding? :: Owns(s, p, s.procs[p].wallet, s.procs[p].deadline)
  }

  ghost predicate Owns(s: State, p: Pid, w: Wallet, deadline: nat) {
    s.KeyLive(w) && s.keys[w].setBy == p && s.keys[w].expiresAt == deadline
  }

  /** At most one process believes it holds any one lock. */
  lemma AtMostOneHolder(s: State, p: Pid, q: Pid, w: Wallet)
    requires BeliefsAreRight(s) && s.Believes(p, w) && s.Believes(q, w)
    ensures p == q
  {
    assert Owns(s, p, w, s.procs[p].deadline) && Owns(s, q, w, s.procs[q].deadline);
  }

  /**
   * The steps that do no harm: time does not pass the deadline of a process that still believes, a
   * DEL that runs does not hit a lock another process believes it holds, and locks are not cleared
   * under a holder. A SET is always harmless, whatever becomes of its reply.
   */
  ghost predicate Harmless(s: State, a: Action)
    requires s.Enabled(a)
  {
    match a
    case WaitUntil(time) => forall p | p in s.procs && s.procs[p].Holding? :: time < s.procs[p].deadline
    case SendDel(p, d) => d.RequestLost? || forall q :: !s.Believes(q, s.Proc(p).wallet)
    case ClearWriteLocks => forall p | p in s.procs :: !s.procs[p].Holding?
    case _ => true
  }

  /** SET EX refuses a zero expiry, so no process in the middle of acquire carries one. */
  ghost predicate ExpiriesPositive(s: State) {
    forall p | p in s.procs && s.procs[p].Acquiring? :: s.procs[p].expirationSec > 0
  }

  /** A step keeps every belief right exactly when it is harmless. */
  lemma HarmlessIsExact(s: State, a: Action)
    requires BeliefsAreRight(s) && ExpiriesPositive(s) && s.Enabled(a)
    ensures BeliefsAreRight(s.Step(a)) <==> Harmless(s, a)
    ensures ExpiriesPositive(s.Step(a))
  {
    var t := s.Step(a);
    match a
    case WaitUntil(time) =>
      forall p | p in s.procs && s.procs[p].Holding?
        ensures Owns(t, p, s.procs[p].wallet, s.procs[p].deadline) <==> time < s.procs[p].deadline
      {
        assert Owns(s, p, s.procs[p].wallet, s.procs[p].deadline);
      }
    case SendSet(p, d) =>
      forall q | q in t.procs && t.procs[q].Holding? ensures Owns(t, q, t.procs[q].wallet, t.procs[q].deadline) {
        if q != p {
          assert Owns(s, q, s.procs[q].wallet, s.procs[q].deadline);
        }
      }
    case SendDel(p, d) =>
      forall q | q in t.procs && t.procs[q].Holding?
        ensures Owns(t, q, t.procs[q].wallet, t.procs[q].deadline) <==>
                d.RequestLost? || t.procs[q].wallet != s.Proc(p).wallet
      {
        assert q != p && Owns(s, q, s.procs[q].wallet, s.procs[q].deadline);
      }
      forall q | s.Believes(q, s.Proc(p).wallet) ensures q in t.procs && t.procs[q] == s.procs[q] {
      }
    case StartAcquire(p, w, acquirer, sec) =>
      forall q | q in t.procs && t.procs[q].Holding? ensures Owns(t, q, t.procs[q].wallet, t.procs[q].deadline) {
        assert Owns(s, q, s.procs[q].wallet, s.procs[q].deadline);
      }
    case StartRelease(p) =>
      forall q | q in t.procs && t.procs[q].Holding? ensures Owns(t, q, t.procs[q].wallet, t.procs[q].deadline) {
        assert Owns(s, q, s.procs[q].wallet, s.procs[q].deadline);
      }
    case ClearWriteLocks =>
  }

  // ---------- Harmless runs ----------

  ghost predicate HarmlessRun(s: State, actions: seq<Action>)
    requires s.Runs(actions)
    decreases actions
  {
    actions == [] || (Harmless(s, actions[0]) && HarmlessRun(s.Step(actions[0]), actions[1..]))
  }

  /** Beliefs are right before, between and after these steps. */
  ghost predicate RightThroughout(s: State, actions: seq<Action>)
    requires s.Runs(actions)
    decreases actions
  {
    BeliefsAreRight(s) && (actions == [] || RightThroughout(s.Step(actions[0]), actions[1..]))
  }

  /** Along every run, beliefs stay right throughout exactly when every step is harmless. */
  lemma {:induction false} HarmlessRunsKeepBeliefs(s: State, actions: seq<Action>)
    requires BeliefsAreRight(s) && ExpiriesPositive(s) && s.Runs(actions)
    ensures RightThroughout(s, actions) <==> HarmlessRun(s, actions)
    decreases actions
  {
    if actions != [] {
      HarmlessIsExact(s, actions[0]);
      if Harmless(s, actions[0]) {
        HarmlessRunsKeepBeliefs(s.Step(actions[0]), actions[1..]);
      } else {
        NotRightAtOnce(s.Step(actions[0]), actions[1..]);
      }
    }
  }

  lemma NotRightAtOnce(s: State, actions: seq<Action>)
    requires s.Runs(actions) && !BeliefsAreRight(s)
    ensures !RightThroughout(s, actions)
  {
  }

  ghost predicate OneHolderEach(s: State) {
    forall p, q, w | s.Believes(p, w) && s.Believes(q, w) :: p == q
  }

  /** What becomes of s when the idle process r calls acquire for w and nothing is lost. */
  function Acquired(s: State, r: Pid, w: Wallet): State
    requires s.Proc(r).Idle?
  {
    s.Step(StartAcquire(r, w, SECONDARY_SYNC_FROM_PRIMARY, 1)).Step(SendSet(r, Delivered))
  }

  /** No lock has two holders, nor will it when any idle process acquires any lock next. */
  ghost predicate SafeToAcquire(s: State) {
    OneHolderEach(s) && forall r, w | s.Proc(r).Idle? :: OneHolderEach(Acquired(s, r, w))
  }

  ghost predicate SafeThroughout(s: State, actions: seq<Action>)
    requires s.Runs(actions)
    decreases actions
  {
    SafeToAcquire(s) && (actions == [] || SafeThroughout(s.Step(actions[0]), actions[1..]))
  }

  lemma RightBeliefsAreSafe(s: State)
    requires BeliefsAreRight(s) && ExpiriesPositive(s)
    ensures SafeToAcquire(s)
  {
    RightMeansOneHolder(s);
    forall r, w | s.Proc(r).Idle? ensures OneHolderEach(Acquired(s, r, w)) {
      var t := s.Step(StartAcquire(r, w, SECONDARY_SYNC_FROM_PRIMARY, 1));
      HarmlessIsExact(s, StartAcquire(r, w, SECONDARY_SYNC_FROM_PRIMARY, 1));
      HarmlessIsExact(t, SendSet(r, Delivered));
      RightMeansOneHolder(Acquired(s, r, w));
    }
  }

  lemma RightMeansOneHolder(s: State)
    requires BeliefsAreRight(s)
    ensures OneHolderEach(s)
  {
    forall p, q, w | s.Believes(p, w) && s.Believes(q, w) ensures p == q {
      AtMostOneHolder(s, p, q, w);
    }
  }

  /** The locks can be cleared at any time; that does no harm exactly when nobody believes to hold one. */
  lemma ClearingHarms(s: State)
    requires BeliefsAreRight(s)
    ensures s.Enabled(ClearWriteLocks) && s.Step(ClearWriteLocks).keys == map[]
    ensures BeliefsAreRight(s.Step(ClearWriteLocks)) <==> forall p, w :: !s.Believes(p, w)
  {
    var t := s.Step(ClearWriteLocks);
    if BeliefsAreRight(t) {
      forall p, w ensures !s.Believes(p, w) {
        assert s.Believes(p, w) ==> Owns(t, p, w, t.procs[p].deadline);
      }
    } else {
      var p :| p in t.procs && t.procs[p].Holding? && !Owns(t, p, t.procs[p].wallet, t.procs[p].deadline);
      assert s.Believes(p, s.procs[p].wallet);
    }
  }

  /**
   * From right beliefs, a step that is not harmless, be it a DEL, an expiry under its holder or a clearing,
   * leaves a holder without its key: any idle process that acquires that lock next is a second holder.
   */
  lemma HarmGivesTwoHolders(s: State, a: Action, r: Pid) returns (p: Pid, w: Wallet)
    requires BeliefsAreRight(s) && ExpiriesPositive(s) && s.Enabled(a) && !Harmless(s, a)
    requires s.Step(a).Proc(r).Idle?
    ensures p != r
    ensures Acquired(s.Step(a), r, w).Believes(p, w) && Acquired(s.Step(a), r, w).Believes(r, w)
  {
    var t := s.Step(a);
    match a {
      case WaitUntil(time) => p :| p in s.procs && s.procs[p].Holding? && time >= s.procs[p].deadline;
      case SendDel(q, d) => p :| s.Believes(p, s.Proc(q).wallet);
      case ClearWriteLocks => p :| p in s.procs && s.procs[p].Holding?;
    }
    w := s.procs[p].wallet;
    assert Owns(s, p, w, s.procs[p].deadline);
    assert t.Believes(p, w) && !t.KeyLive(w);
  }

  lemma {:induction false} LargerThan(used: set<Pid>) returns (p: Pid)
    ensures forall q | q in used :: q < p
    decreases |used|
  {
    p := 0;
    if used != {} {
      var q :| q in used;
      var rest := LargerThan(used - {q});
      p := if q < rest then rest else q + 1;
      assert forall x | x in used :: x == q || x in used - {q};
    }
  }

  /**
   * Along every run, no lock ever has two holders, nor could have with the next acquire, exactly when every
   * step is harmless.
   */
  lemma {:induction false} OneHolderExactly(s: State, actions: seq<Action>)
    requires BeliefsAreRight(s) && ExpiriesPositive(s) && s.Runs(actions)
    ensures SafeThroughout(s, actions) <==> HarmlessRun(s, actions)
    decreases actions
  {
    RightBeliefsAreSafe(s);
    if actions != [] {
      var t := s.Step(actions[0]);
      HarmlessIsExact(s, actions[0]);
      if Harmless(s, actions[0]) {
        OneHolderExactly(t, actions[1..]);
      } else {
        var r := LargerThan(t.procs.Keys);
        assert r !in t.procs;
        var p, w := HarmGivesTwoHolders(s, actions[0], r);
        assert !OneHolderEach(Acquired(t, r, w));
        UnsafeAtOnce(t, actions[1..]);
      }
    }
  }

  lemma UnsafeAtOnce(s: State, actions: seq<Action>)
    requires s.Runs(actions) && !SafeToAcquire(s)
    ensures !SafeThroughout(s, actions)
  {
  }

  // ---------- Runs in which every holder releases in time ----------

  /**
   * The lock is used as intended: only a process that holds the lock releases it, its DEL runs before
   * the deadline, and the reply of that DEL arrives. Replies of SET may be lost.
   */
  ghost predicate Disciplined(s: State, a: Action) {
    match a
    case WaitUntil(time) =>
      forall p | p in s.procs && (s.procs[p].Holding? || s.procs[p].Releasing?) :: time < s.procs[p].deadline
    case StartRelease(p) => s.Proc(p).Holding?
    case SendDel(_, d) => !d.ReplyLost?
    case ClearWriteLocks => false
    case _ => true
  }

  ghost predicate DisciplinedRun(s: State, actions: seq<Action>)
    decreases actions
  {
    actions == [] ||
    (s.Enabled(actions[0]) && Disciplined(s, actions[0]) && DisciplinedRun(s.Step(actions[0]), actions[1..]))
  }

  /** A process on its way to release still owns its lock. */
  ghost predicate ReleasersOwn(s: State) {
    forall p | p in s.procs && s.procs[p].Releasing? :: Owns(s, p, s.procs[p].wallet, s.procs[p].deadline)
  }

  ghost predicate InOrder(s: State) {
    BeliefsAreRight(s) && ExpiriesPositive(s) && ReleasersOwn(s)
  }

  lemma DisciplinedKeepsOrder(s: State, a: Action)
    requires InOrder(s) && s.Enabled(a) && Disciplined(s, a)
    ensures InOrder(s.Step(a))
  {
    var t := s.Step(a);
    forall p | p in t.procs && (t.procs[p].Holding? || t.procs[p].Releasing?)
      ensures Owns(t, p, t.procs[p].wallet, t.procs[p].deadline)
    {
      if p in s.procs && (s.procs[p].Holding? || s.procs[p].Releasing?) {
        assert Owns(s, p, s.procs[p].wallet, s.procs[p].deadline);
      }
      if a.SendDel? {
        assert Owns(s, a.p, s.procs[a.p].wallet, s.procs[a.p].deadline);
      }
    }
  }

  /** In every disciplined run, beliefs stay right, so no lock ever has two holders, */
  lemma {:induction false} DisciplinedRunIsSafe(s: State, actions: seq<Action>)
    requires InOrder(s) && DisciplinedRun(s, actions)
    ensures s.Runs(actions) && InOrder(s.Run(actions))
    decreases actions
  {
    if actions != [] {
      DisciplinedKeepsOrder(s, actions[0]);
      DisciplinedRunIsSafe(s.Step(actions[0]), actions[1..]);
    }
  }

  lemma OneHolderInDisciplinedRuns(actions: seq<Action>, p: Pid, q: Pid, w: Wallet)
    requires DisciplinedRun(START, actions)
    ensures START.Runs(actions)
    ensures START.Run(actions).Believes(p, w) && START.Run(actions).Believes(q, w) ==> p == q
  {
    DisciplinedRunIsSafe(START, actions);
    if START.Run(actions).Believes(p, w) && START.Run(actions).Believes(q, w) {
      AtMostOneHolder(START.Run(actions), p, q, w);
    }
  }

  /** and the unconditional DEL only ever removes the releasing process's own lock. */
  lemma DelRemovesOwnLock(actions: seq<Action>, p: Pid, d: Delivery)
    requires DisciplinedRun(START, actions)
    ensures START.Runs(actions)
    ensures var s := START.Run(actions);
            s.Enabled(SendDel(p, d)) ==> s.KeyLive(s.Proc(p).wallet) && s.keys[s.Proc(p).wallet].setBy == p
  {
    DisciplinedRunIsSafe(START, actions);
    var s := START.Run(actions);
    if s.Enabled(SendDel(p, d)) {
      assert Owns(s, p, s.procs[p].wallet, s.procs[p].deadline);
    }
  }

  ghost predicate KeyLivesThroughout(s: State, actions: seq<Action>, w: Wallet)
    requires s.Runs(actions)
    decreases actions
  {
    s.KeyLive(w) && (actions == [] || KeyLivesThroughout(s.Step(actions[0]), actions[1..], w))
  }

  /** As long as a key stands, nobody comes to believe that it holds that lock. */
  lemma {:induction false} LiveKeyAdmitsNobody(s: State, actions: seq<Action>, w: Wallet, q: Pid)
    requires s.Runs(actions) && KeyLivesThroughout(s, actions, w)
    ensures s.Run(actions).Believes(q, w) ==> s.Believes(q, w)
    decreases actions
  {
    if actions != [] {
      LiveKeyAdmitsNobody(s.Step(actions[0]), actions[1..], w, q);
    }
  }

  /**
   * A SET that ran without its reply can only make acquire fail: in every continuation, whoever takes part
   * in it, until the key is gone, the process does not come to hold the lock, and neither does anybody else.
   */
  lemma LostSetReplyOnlyFails(s: State, p: Pid, actions: seq<Action>, q: Pid)
    requires s.Enabled(SendSet(p, ReplyLost)) && s.Proc(p).expirationSec > 0
    requires s.Step(SendSet(p, ReplyLost)).Runs(actions)
    requires KeyLivesThroughout(s.Step(SendSet(p, ReplyLost)), actions, s.Proc(p).wallet)
    ensures s.Step(SendSet(p, ReplyLost)).KeyLive(s.Proc(p).wallet)
    ensures var t := s.Step(SendSet(p, ReplyLost)).Run(actions);
            && !t.Believes(p, s.Proc(p).wallet)
            && (t.Believes(q, s.Proc(p).wallet) ==> s.Believes(q, s.Proc(p).wallet))
  {
    var t, w := s.Step(SendSet(p, ReplyLost)), s.Proc(p).wallet;
    LiveKeyAdmitsNobody(t, actions, w, p);
    LiveKeyAdmitsNobody(t, actions, w, q);
  }

  // ---------- How the repository's callers break it ----------

  lemma {:induction false} RunSnoc(s: State, actions: seq<Action>, a: Action)
    requires s.Runs(actions) && s.Run(actions).Enabled(a)
    ensures s.Runs(actions + [a]) && s.Run(actions + [a]) == s.Run(actions).Step(a)
    decreases actions
  {
    if actions == [] {
      assert [a][1..] == [];
    } else {
      assert (actions + [a])[1..] == actions[1..] + [a];
      RunSnoc(s.Step(actions[0]), actions[1..], a);
    }
  }

  lemma AcquireRun(actions: seq<Action>, p: Pid, w: Wallet, acquirer: string, sec: nat) returns (r: seq<Action>)
    requires START.Runs(actions) && START.Run(actions).Proc(p).Idle? && sec > 0 && ValidAcquirer(acquirer)
    ensures r == actions + [StartAcquire(p, w, acquirer, sec), SendSet(p, Delivered)]
    ensures START.Runs(r)
    ensures var s := START.Run(actions);
            START.Run(r) == s.(procs := s.procs[p := Acquiring(w, acquirer, sec, ATTEMPTS)]).AfterSet(p, Delivered)
  {
    RunSnoc(START, actions, StartAcquire(p, w, acquirer, sec));
    RunSnoc(START, actions + [StartAcquire(p, w, acquirer, sec)], SendSet(p, Delivered));
    r := actions + [StartAcquire(p, w, acquirer, sec)] + [SendSet(p, Delivered)];
  }

  /** The loser of a contended acquire has released. */
  lemma LoserReleases(w: Wallet, a: string, sec: nat) returns (actions: seq<Action>)
    requires ValidAcquirer(a) && sec > 0
    ensures actions == [StartAcquire(1, w, a, sec), SendSet(1, Delivered), StartAcquire(2, w, a, sec),
                        SendSet(2, Delivered), StartRelease(2), SendDel(2, Delivered)]
    ensures START.Runs(actions)
    ensures var s := START.Run(actions); s.Believes(1, w) && s.Proc(3).Idle? && !s.KeyLive(w)
  {
    actions := AcquireRun([], 1, w, a, sec);
    actions := AcquireRun(actions, 2, w, a, sec);
    RunSnoc(START, actions, StartRelease(2));
    actions := actions + [StartRelease(2)];
    RunSnoc(START, actions, SendDel(2, Delivered));
    actions := actions + [SendDel(2, Delivered)];
  }

  /** The first holder's DEL has reached Redis with its reply lost. */
  lemma DeleteReplyLost(w: Wallet, a: string, sec: nat) returns (actions: seq<Action>)
    requires ValidAcquirer(a) && sec > 0
    ensures actions == [StartAcquire(1, w, a, sec), SendSet(1, Delivered), StartRelease(1), SendDel(1, ReplyLost)]
    ensures START.Runs(actions)
    ensures var s := START.Run(actions);
            && s.Enabled(SendDel(1, Delivered)) && s.Proc(1).wallet == w
            && s.Proc(2).Idle? && s.Proc(3).Idle? && !s.KeyLive(w)
  {
    actions := AcquireRun([], 1, w, a, sec);
    RunSnoc(START, actions, StartRelease(1));
    actions := actions + [StartRelease(1)];
    RunSnoc(START, actions, SendDel(1, ReplyLost));
    actions := actions + [SendDel(1, ReplyLost)];
  }

  /** It has sent the DEL again, after a second process acquired the lock. */
  lemma DeletesTwice(w: Wallet, a: string, sec: nat) returns (actions: seq<Action>)
    requires ValidAcquirer(a) && sec > 0
    ensures actions == [StartAcquire(1, w, a, sec), SendSet(1, Delivered), StartRelease(1), SendDel(1, ReplyLost),
                        StartAcquire(2, w, a, sec), SendSet(2, Delivered), SendDel(1, Delivered)]
    ensures START.Runs(actions)
    ensures var s := START.Run(actions); s.Believes(2, w) && s.Proc(3).Idle? && !s.KeyLive(w)
  {
    actions := DeleteReplyLost(w, a, sec);
    actions := AcquireRun(actions, 2, w, a, sec);
    RunSnoc(START, actions, SendDel(1, Delivered));
    actions := actions + [SendDel(1, Delivered)];
  }

  /**
   * Both syncs release in a finally block that also runs when acquire has thrown. The loser of a
   * contended acquire then deletes the winner's lock, and a third process acquires it at once.
   */
  lemma ReleaseAfterFailedAcquire(w: Wallet, a: string, sec: nat) returns (actions: seq<Action>)
    requires ValidAcquirer(a) && sec > 0
    ensures actions == [StartAcquire(1, w, a, sec), SendSet(1, Delivered), StartAcquire(2, w, a, sec),
                        SendSet(2, Delivered), StartRelease(2), SendDel(2, Delivered),
                        StartAcquire(3, w, a, sec), SendSet(3, Delivered)]
    ensures START.Runs(actions)
    ensures START.Run(actions).Believes(1, w) && START.Run(actions).Believes(3, w)
  {
    actions := LoserReleases(w, a, sec);
    actions := AcquireRun(actions, 3, w, a, sec);
  }

  /** A DEL that ran without its reply is sent again, and by then the lock may be somebody else's. */
  lemma RetriedDeleteHitsNextHolder(w: Wallet, a: string, sec: nat) returns (actions: seq<Action>)
    requires ValidAcquirer(a) && sec > 0
    ensures actions == [StartAcquire(1, w, a, sec), SendSet(1, Delivered), StartRelease(1), SendDel(1, ReplyLost),
                        StartAcquire(2, w, a, sec), SendSet(2, Delivered), SendDel(1, Delivered),
                        StartAcquire(3, w, a, sec), SendSet(3, Delivered)]
    ensures START.Runs(actions)
    ensures START.Run(actions).Believes(2, w) && START.Run(actions).Believes(3, w)
  {
    actions := DeletesTwice(w, a, sec);
    actions := AcquireRun(actions, 3, w, a, sec);
  }

  // ---------- syncIsInProgress ----------

  ghost predicate AcquirersValid(s: State) {
    && (forall w | w in s.keys :: ValidAcquirer(s.keys[w].acquirer))
    && (forall p | p in s.procs && s.procs[p].Acquiring? :: ValidAcquirer(s.procs[p].acquirer))
  }

  /** In every run syncIsInProgress tells exactly whether a live key stands, so it is true under a holder. */
  lemma {:induction false} SyncInProgressIsLockHeld(s: State, actions: seq<Action>, w: Wallet)
    requires AcquirersValid(s) && s.Runs(actions)
    ensures AcquirersValid(s.Run(actions))
    ensures var t := s.Run(actions); t.SyncIsInProgress(w) <==> w in t.keys && t.now < t.keys[w].expiresAt
    decreases actions
  {
    if actions != [] {
      SyncInProgressIsLockHeld(s.Step(actions[0]), actions[1..], w);
    }
  }
}
