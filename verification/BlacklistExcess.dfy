// What Redis holds beyond what the ContentBlacklist table implies, in the interleavings of Blacklist: a call that has
// read what to add before a removal changes the table puts it back after the removal has taken it out.
module BlacklistExcess {
  import opened Blacklist

  /** An add or a refresh under way has still to send it. */
  ghost predicate Sending(s: State, x: Item) { exists i :: i in s.ops && !s.ops[i].Removing? && x in s.ops[i].left }

  /** A removal under way will still take it out. */
  ghost predicate Leaving(s: State, x: Item) { exists i :: i in s.ops && s.ops[i].Removing? && x in s.ops[i].left }

  /** In Redis without being implied, and no call under way will change that. */
  ghost predicate Excess(tables: Tables, s: State, x: Item) {
    x in s.redis && x !in Implied(tables, s.entries) && !Leaving(s, x)
  }

  ghost predicate NoExcess(tables: Tables, s: State) { forall x :: !Excess(tables, s, x) }

  /** Members are sent and taken out, and the calls under way end; no call begins. */
  predicate GoesOn(a: Action) { a.Sadd? || a.Srem? || a.Finish? }

  /** However the calls under way go on, there is no excess. */
  ghost predicate Settles(tables: Tables, s: State) {
    forall actions | s.Runs(tables, actions) && (forall a | a in actions :: GoesOn(a)) ::
      NoExcess(tables, s.Run(tables, actions))
  }

  /** Nothing on its way to Redis has been taken off the blacklist. */
  ghost predicate NoneStale(tables: Tables, s: State) {
    forall x | Sending(s, x) :: x in Implied(tables, s.entries)
  }

  /** A removal takes nothing off the blacklist that an add or a refresh has still to send. */
  ghost predicate Clean(tables: Tables, s: State, a: Action) {
    a.RemoveFromDb? ==> forall x | Sending(s, x) :: x in Implied(tables, s.entries - a.values)
  }

  // ---------- One step ----------

  lemma SendingBefore(tables: Tables, s: State, a: Action, x: Item)
    requires s.Enabled(a) && Sending(s.Step(tables, a), x)
    ensures Sending(s, x) || (a.AddToDb? && x in Implied(tables, a.values)) ||
            (a.ReadTable? && x in Implied(tables, s.entries))
  {
    var next := s.Step(tables, a);
    var i :| i in next.ops && !next.ops[i].Removing? && x in next.ops[i].left;
    assert i in s.ops ==> s.ops[i].Removing? || x in s.ops[i].left || a.AddToDb? || a.ReadTable?;
  }

  /** What an op has still to send or to take out stays so unless that very op does it. */
  lemma SendingAfter(tables: Tables, s: State, a: Action, x: Item)
    requires s.Enabled(a) && Sending(s, x) && !a.Sadd?
    ensures Sending(s.Step(tables, a), x)
  {
    var next := s.Step(tables, a);
    var i :| i in s.ops && !s.ops[i].Removing? && x in s.ops[i].left;
    assert i in next.ops && !next.ops[i].Removing? && x in next.ops[i].left;
  }

  lemma LeavingAfter(tables: Tables, s: State, a: Action, x: Item)
    requires s.Enabled(a) && Leaving(s, x) && (a.Srem? ==> x !in a.part)
    ensures Leaving(s.Step(tables, a), x)
  {
    var next := s.Step(tables, a);
    var i :| i in s.ops && s.ops[i].Removing? && x in s.ops[i].left;
    assert i in next.ops && next.ops[i].Removing? && x in next.ops[i].left;
  }

  lemma LeavingBefore(tables: Tables, s: State, a: Action, x: Item)
    requires s.Enabled(a) && Leaving(s.Step(tables, a), x)
    ensures Leaving(s, x) || (a.RemoveFromDb? && x in Implied(tables, a.values))
  {
    var next := s.Step(tables, a);
    var i :| i in next.ops && next.ops[i].Removing? && x in next.ops[i].left;
    assert i in s.ops ==> !s.ops[i].Removing? || x in s.ops[i].left || a.RemoveFromDb?;
  }

  /** Entries that go take with them only what they imply. */
  lemma RemovedWasImplied(tables: Tables, entries: set<Item>, values: set<Item>, x: Item)
    requires x in Implied(tables, entries) && x !in Implied(tables, entries - values)
    ensures x in Implied(tables, values)
  {
    ImpliedDistributes(tables, entries - values, values);
    ImpliedGrows(tables, entries, (entries - values) + values);
  }

  lemma NoNewExcess(tables: Tables, s: State, a: Action, x: Item)
    requires NoExcess(tables, s) && NoneStale(tables, s) && s.Enabled(a)
    ensures !Excess(tables, s.Step(tables, a), x)
  {
    var next := s.Step(tables, a);
    assert !Excess(tables, s, x);
    if Leaving(s, x) && (a.Srem? ==> x !in a.part) {
      LeavingAfter(tables, s, a, x);
    }
    match a
    case AddToDb(i, values) => ImpliedGrows(tables, s.entries, next.entries);
    case RemoveFromDb(i, values) =>
      assert i in next.ops && next.ops[i] == Removing(Implied(tables, values));
      if x in Implied(tables, s.entries) && x !in Implied(tables, next.entries) {
        RemovedWasImplied(tables, s.entries, values, x);
        assert Leaving(next, x);
      }
    case Sadd(i, part) => assert x in part ==> Sending(s, x);
    case _ =>
  }

  /** Exactly a removal that is not clean leaves something stale on its way. */
  lemma CleanIsExact(tables: Tables, s: State, a: Action)
    requires NoExcess(tables, s) && NoneStale(tables, s) && s.Enabled(a)
    ensures NoExcess(tables, s.Step(tables, a))
    ensures NoneStale(tables, s.Step(tables, a)) <==> Clean(tables, s, a)
  {
    var next := s.Step(tables, a);
    forall x ensures !Excess(tables, next, x) {
      NoNewExcess(tables, s, a, x);
    }
    if a.AddToDb? {
      ImpliedDistributes(tables, s.entries, a.values);
    }
    if Clean(tables, s, a) {
      forall x | Sending(next, x) ensures x in Implied(tables, next.entries) {
        SendingBefore(tables, s, a, x);
      }
    } else {
      var x :| Sending(s, x) && x !in Implied(tables, s.entries - a.values);
      SendingAfter(tables, s, a, x);
    }
  }

  // ---------- What stale members lead to ----------

  lemma UnsettledNow(tables: Tables, s: State, x: Item)
    requires Excess(tables, s, x)
    ensures !Settles(tables, s)
  {
    assert s.Runs(tables, []) && s.Run(tables, []) == s;
  }

  lemma UnsettledAfter(tables: Tables, s: State, a: Action)
    requires s.Enabled(a) && GoesOn(a) && !Settles(tables, s.Step(tables, a))
    ensures !Settles(tables, s)
  {
    var next := s.Step(tables, a);
    var actions :| next.Runs(tables, actions) && (forall b | b in actions :: GoesOn(b)) &&
                   !NoExcess(tables, next.Run(tables, actions));
    assert ([a] + actions)[1..] == actions;
    assert s.Runs(tables, [a] + actions);
  }

  /** Every removal takes it out, and then the stale call sends it. */
  lemma {:induction false} StaleIsUnsettled(tables: Tables, s: State, i: OpId, x: Item, removing: set<OpId>)
    requires i in s.ops && !s.ops[i].Removing? && x in s.ops[i].left && x !in Implied(tables, s.entries)
    requires removing == set j | j in s.ops && s.ops[j].Removing? && x in s.ops[j].left
    ensures !Settles(tables, s)
    decreases removing
  {
    var only := iset{x};
    if removing == {} {
      assert forall j | j in s.ops && s.ops[j].Removing? && x in s.ops[j].left :: j in removing;
      SendingAlone(tables, s, i, x);
      UnsettledAfter(tables, s, Sadd(i, only));
    } else {
      var j :| j in removing;
      var next := s.Step(tables, Srem(j, only));
      StaleIsUnsettled(tables, next, i, x, removing - {j});
      UnsettledAfter(tables, s, Srem(j, only));
    }
  }

  lemma SendingAlone(tables: Tables, s: State, i: OpId, x: Item)
    requires i in s.ops && !s.ops[i].Removing? && x in s.ops[i].left && x !in Implied(tables, s.entries)
    requires !Leaving(s, x)
    ensures !Settles(tables, s.Step(tables, Sadd(i, iset{x})))
  {
    var next := s.Step(tables, Sadd(i, iset{x}));
    if Leaving(next, x) {
      LeavingBefore(tables, s, Sadd(i, iset{x}), x);
    }
    UnsettledNow(tables, next, x);
  }

  lemma {:induction false} GoingOnStaysClean(tables: Tables, s: State, actions: seq<Action>)
    requires NoExcess(tables, s) && NoneStale(tables, s) && s.Runs(tables, actions)
    requires forall a | a in actions :: GoesOn(a)
    ensures NoExcess(tables, s.Run(tables, actions))
    decreases actions
  {
    if actions != [] {
      assert actions[0] in actions && Clean(tables, s, actions[0]);
      CleanIsExact(tables, s, actions[0]);
      assert forall a | a in actions[1..] :: a in actions;
      GoingOnStaysClean(tables, s.Step(tables, actions[0]), actions[1..]);
    }
  }

  lemma SettlesExactly(tables: Tables, s: State)
    ensures Settles(tables, s) <==> NoExcess(tables, s) && NoneStale(tables, s)
  {
    if NoExcess(tables, s) && NoneStale(tables, s) {
      forall actions | s.Runs(tables, actions) && forall a | a in actions :: GoesOn(a)
        ensures NoExcess(tables, s.Run(tables, actions))
      {
        GoingOnStaysClean(tables, s, actions);
      }
    } else if !NoExcess(tables, s) {
      var x :| Excess(tables, s, x);
      UnsettledNow(tables, s, x);
    } else {
      var x :| Sending(s, x) && x !in Implied(tables, s.entries);
      var i :| i in s.ops && !s.ops[i].Removing? && x in s.ops[i].left;
      StaleIsUnsettled(tables, s, i, x, set j | j in s.ops && s.ops[j].Removing? && x in s.ops[j].left);
    }
  }

  // ---------- Whole runs ----------

  ghost predicate AlwaysSettles(tables: Tables, s: State, actions: seq<Action>)
    requires s.Runs(tables, actions)
    decreases actions
  {
    Settles(tables, s) && (actions == [] || AlwaysSettles(tables, s.Step(tables, actions[0]), actions[1..]))
  }

  ghost predicate AllClean(tables: Tables, s: State, actions: seq<Action>)
    requires s.Runs(tables, actions)
    decreases actions
  {
    || actions == []
    || (Clean(tables, s, actions[0]) && AllClean(tables, s.Step(tables, actions[0]), actions[1..]))
  }

  /**
   * Along every interleaving, Redis never comes to hold for good what the table does not imply, in whatever order
   * the calls under way reach it, exactly when every removal is clean.
   */
  lemma {:induction false} SettlesWhileClean(tables: Tables, s: State, actions: seq<Action>)
    requires s.Runs(tables, actions) && Settles(tables, s)
    ensures AlwaysSettles(tables, s, actions) <==> AllClean(tables, s, actions)
    decreases actions
  {
    if actions != [] {
      var next := s.Step(tables, actions[0]);
      SettlesExactly(tables, s);
      SettlesExactly(tables, next);
      CleanIsExact(tables, s, actions[0]);
      if Settles(tables, next) {
        SettlesWhileClean(tables, next, actions[1..]);
      }
    }
  }

  /** What has come to be there for good stays, whatever adds and refreshes follow, until a removal of it. */
  lemma {:induction false} ExcessStays(tables: Tables, s: State, actions: seq<Action>, x: Item)
    requires s.Runs(tables, actions) && x in s.redis && !Leaving(s, x)
    requires forall a | a in actions && a.RemoveFromDb? :: x !in Implied(tables, a.values)
    ensures x in s.Run(tables, actions).redis && !Leaving(s.Run(tables, actions), x)
    decreases actions
  {
    if actions != [] {
      var next := s.Step(tables, actions[0]);
      if Leaving(next, x) {
        LeavingBefore(tables, s, actions[0], x);
      }
      assert actions[0].Srem? && x in actions[0].part ==> Leaving(s, x);
      assert forall a | a in actions[1..] :: a in actions;
      ExcessStays(tables, next, actions[1..], x);
    }
  }
}
